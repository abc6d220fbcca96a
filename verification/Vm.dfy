/**
 * Page tables (vm.c) over the frame allocator (kalloc.c), as functions on one value: the free list, the frames that
 * kernel code holds, every address space's directory, the page tables, and what the frames hold. Frames are numbers.
 */
module Vm {
  const ENTRIES: nat := 1024
  const PGSIZE: nat := 4096
  const KERNBASE: nat := 0x80000000
  const USERDIR: nat := 512
  const USERPAGES: nat := 524288
  const WUP: nat := 7

  type byte = x: int | 0 <= x < 256
  type Idx = x: nat | x < ENTRIES

  datatype Pte = Absent | Pte(frame: nat, flags: nat)

  type Table = t: seq<Pte> | |t| == ENTRIES witness seq(ENTRIES, _ => Absent)
  type Page = p: seq<byte> | |p| == PGSIZE witness seq(PGSIZE, _ => 0)

  function ZeroTable(): Table { seq(ENTRIES, _ => Absent) }
  function ZeroPage(): Page { seq(PGSIZE, _ => 0) }
  function JunkPage(): Page { seq(PGSIZE, _ => 1) }

  datatype Mem = Mem(
    free: seq<nat>,
    held: set<nat>,
    dirs: map<nat, Table>,
    tables: map<nat, Table>,
    data: map<nat, Page>)

  /** The entry for page x * ENTRIES + y of address space d. */
  function At(m: Mem, d: nat, x: Idx, y: Idx): Pte {
    if d in m.dirs && m.dirs[d][x].Pte? && m.dirs[d][x].frame in m.tables then m.tables[m.dirs[d][x].frame][y]
    else Absent
  }

  function Pdx(p: nat): Idx requires p < ENTRIES * ENTRIES { p / ENTRIES }
  function Ptx(p: nat): Idx { p % ENTRIES }

  /** The flat map an address space stands for. */
  function Entry(m: Mem, d: nat, p: nat): Pte
    requires p < ENTRIES * ENTRIES
  {
    At(m, d, Pdx(p), Ptx(p))
  }

  function Bytes(m: Mem, f: nat): Page { if f in m.data then m.data[f] else ZeroPage() }

  // Who owns a frame ------------------------------------------------------------------------------

  datatype Owner = Free | Held | Dir | Tab(d: nat, x: Idx) | User(d: nat, x: Idx, y: Idx)

  predicate Owns(m: Mem, o: Owner, f: nat) {
    match o
    case Free => f in m.free
    case Held => f in m.held
    case Dir => f in m.dirs
    case Tab(d, x) => d in m.dirs && m.dirs[d][x].Pte? && m.dirs[d][x].frame == f
    case User(d, x, y) => x < USERDIR && At(m, d, x, y).Pte? && At(m, d, x, y).frame == f
  }

  ghost predicate Closed(m: Mem) {
    forall d, x: Idx | d in m.dirs :: m.dirs[d][x].Pte? ==> m.dirs[d][x].frame in m.tables
  }

  ghost predicate NoDup(s: seq<nat>) {
    forall i, j | 0 <= i < j < |s| :: s[i] != s[j]
  }

  ghost predicate Unique(m: Mem) {
    forall o, p, f :: Owns(m, o, f) && Owns(m, p, f) ==> o == p
  }

  ghost predicate Owned(m: Mem, f: nat) {
    exists o :: Owns(m, o, f)
  }

  /** Each frame of all has one owner, and no other frame has any. */
  ghost predicate Good(m: Mem, all: set<nat>) {
    Closed(m) && NoDup(m.free) && Unique(m) && forall f: nat :: f in all <==> Owned(m, f)
  }

  /** From m to n the frames fs went to one owner, and every other frame stayed with its own. */
  ghost predicate Moved(m: Mem, n: Mem, fs: set<nat>, owner: Owner) {
    forall o, f :: Owns(n, o, f) <==> if f in fs then o == owner else Owns(m, o, f)
  }

  lemma MovedKeeps(m: Mem, n: Mem, fs: set<nat>, owner: Owner, all: set<nat>)
    requires Good(m, all) && Moved(m, n, fs, owner) && Closed(n) && NoDup(n.free) && fs <= all
    ensures Good(n, all)
  {
    hide Owns;
    forall f: nat ensures f in all <==> Owned(n, f) {
      if f in fs {
        assert Owns(n, owner, f);
      } else {
        assert Owned(m, f) ==> exists o :: Owns(m, o, f) && Owns(n, o, f);
      }
    }
  }

  /** Space e's entry (x, y) is the same, and below KERNBASE so is the page it maps. */
  predicate SameAt(m: Mem, n: Mem, e: nat, x: Idx, y: Idx) {
    && At(n, e, x, y) == At(m, e, x, y)
    && (x < USERDIR && At(m, e, x, y).Pte? ==> Bytes(n, At(m, e, x, y).frame) == Bytes(m, At(m, e, x, y).frame))
  }

  ghost predicate SameMaps(m: Mem, n: Mem) {
    forall e, x, y :: SameAt(m, n, e, x, y)
  }

  ghost predicate OnlyAt(m: Mem, n: Mem, d: nat, a: Idx, b: Idx) {
    forall e, x, y :: !(e == d && x == a && y == b) ==> SameAt(m, n, e, x, y)
  }

  // The primitive changes -------------------------------------------------------------------------

  /** kalloc. */
  function Take(m: Mem): (n: Mem)
    requires |m.free| > 0
    ensures Closed(m) ==> Closed(n)
  {
    m.(free := m.free[1..], held := m.held + {m.free[0]})
  }

  function Fill(m: Mem, f: nat, page: Page): Mem { m.(data := m.data[f := page]) }

  /** kfree. */
  function Release(m: Mem, f: nat): Mem {
    m.(free := [f] + m.free, held := m.held - {f}, data := m.data[f := JunkPage()])
  }

  function AddDir(m: Mem, f: nat): (n: Mem)
    ensures Closed(m) ==> Closed(n)
  {
    m.(held := m.held - {f}, dirs := m.dirs[f := ZeroTable()])
  }

  /** A held frame becomes the page table of directory entry x. */
  function AddTable(m: Mem, d: nat, x: Idx, f: nat): (n: Mem)
    requires d in m.dirs
    ensures Closed(m) ==> Closed(n)
    ensures HasTable(n, d, x)
  {
    m.(held := m.held - {f}, tables := m.tables[f := ZeroTable()], dirs := m.dirs[d := m.dirs[d][x := Pte(f, WUP)]])
  }

  predicate HasTable(m: Mem, d: nat, x: Idx) {
    d in m.dirs && m.dirs[d][x].Pte? && m.dirs[d][x].frame in m.tables
  }

  function SetPte(m: Mem, d: nat, x: Idx, y: Idx, e: Pte): (n: Mem)
    requires HasTable(m, d, x)
    ensures Closed(m) ==> Closed(n)
  {
    var t := m.dirs[d][x].frame;
    m.(tables := m.tables[t := m.tables[t][y := e]])
  }

  function AddPage(m: Mem, d: nat, x: Idx, y: Idx, e: Pte): Mem
    requires HasTable(m, d, x) && e.Pte?
  {
    SetPte(m.(held := m.held - {e.frame}), d, x, y, e)
  }

  function RemovePage(m: Mem, d: nat, x: Idx, y: Idx): Mem
    requires HasTable(m, d, x) && At(m, d, x, y).Pte?
  {
    SetPte(m.(held := m.held + {At(m, d, x, y).frame}), d, x, y, Absent)
  }

  function TabFrames(m: Mem, d: nat): set<nat>
    requires d in m.dirs
  {
    set x: Idx | m.dirs[d][x].Pte? :: m.dirs[d][x].frame
  }

  /** The directory and its page tables are held, no longer part of an address space. */
  function DropDir(m: Mem, d: nat): Mem
    requires d in m.dirs
  {
    m.(dirs := m.dirs - {d}, held := m.held + {d} + TabFrames(m, d))
  }

  lemma TakeKeeps(m: Mem, all: set<nat>)
    requires Good(m, all) && |m.free| > 0
    ensures Good(Take(m), all) && SameMaps(m, Take(m))
    ensures m.free[0] in all && m.free[0] !in m.held && forall f | f in m.free[1..] :: f in m.free
  {
    var f, n := m.free[0], Take(m);
    assert Owns(m, Free, f);
    forall g ensures g in n.free <==> g in m.free && g != f {
      if g in m.free {
        var i :| 0 <= i < |m.free| && m.free[i] == g;
        assert i > 0 ==> n.free[i - 1] == g;
      }
    }
    assert !Owns(m, Held, f);
    assert Owned(m, f);
    forall o, g ensures Owns(n, o, g) <==> if g in {f} then o == Held else Owns(m, o, g) {
      assert forall e, x, y :: At(n, e, x, y) == At(m, e, x, y);
      assert g == f && Owns(m, o, g) ==> o == Free;
    }
    MovedKeeps(m, n, {f}, Held, all);
  }

  lemma FillKeeps(m: Mem, f: nat, page: Page, all: set<nat>)
    requires Good(m, all) && f in m.held
    ensures Good(Fill(m, f, page), all) && SameMaps(m, Fill(m, f, page))
  {
    assert Owns(m, Held, f);
    MovedKeeps(m, Fill(m, f, page), {}, Held, all);
    forall e, x: Idx, y ensures SameAt(m, Fill(m, f, page), e, x, y) {
      assert x < USERDIR && At(m, e, x, y).Pte? ==> Owns(m, User(e, x, y), At(m, e, x, y).frame);
    }
  }

  lemma ReleaseKeeps(m: Mem, f: nat, all: set<nat>)
    requires Good(m, all) && f in m.held
    ensures Good(Release(m, f), all) && SameMaps(m, Release(m, f)) && f in all && f !in m.free
  {
    var n := Release(m, f);
    assert Owns(m, Held, f);
    assert !Owns(m, Free, f);
    assert forall g :: g in n.free <==> g == f || g in m.free;
    assert Owned(m, f);
    forall o, g ensures Owns(n, o, g) <==> if g in {f} then o == Free else Owns(m, o, g) {
      assert forall e, x, y :: At(n, e, x, y) == At(m, e, x, y);
      assert g == f && Owns(m, o, g) ==> o == Held;
    }
    MovedKeeps(m, n, {f}, Free, all);
    forall e, x: Idx, y ensures SameAt(m, n, e, x, y) {
      assert x < USERDIR && At(m, e, x, y).Pte? ==> Owns(m, User(e, x, y), At(m, e, x, y).frame);
    }
  }

  lemma AddDirKeeps(m: Mem, f: nat, all: set<nat>)
    requires Good(m, all) && f in m.held
    ensures Good(AddDir(m, f), all) && f !in m.dirs && SameMaps(m, AddDir(m, f))
  {
    assert Owns(m, Held, f);
    assert !Owns(m, Dir, f);
    assert Owned(m, f);
    var n := AddDir(m, f);
    forall o, g ensures Owns(n, o, g) <==> if g in {f} then o == Dir else Owns(m, o, g) {
      assert forall e, x, y :: At(n, e, x, y) == At(m, e, x, y);
      assert g == f && Owns(m, o, g) ==> o == Held;
    }
    MovedKeeps(m, n, {f}, Dir, all);
  }

  lemma AddTableKeeps(m: Mem, d: nat, x: Idx, f: nat, all: set<nat>)
    requires Good(m, all) && f in m.held && d in m.dirs && m.dirs[d][x] == Absent
    ensures Good(AddTable(m, d, x, f), all) && SameMaps(m, AddTable(m, d, x, f)) && HasTable(AddTable(m, d, x, f), d, x)
  {
    var n := AddTable(m, d, x, f);
    assert Owns(m, Held, f);
    forall e, u: Idx | e in m.dirs && m.dirs[e][u].Pte? ensures m.dirs[e][u].frame != f {
      assert Owns(m, Tab(e, u), m.dirs[e][u].frame);
    }
    forall e, u, v ensures At(n, e, u, v) == At(m, e, u, v) {
    }
    forall o, g ensures Owns(n, o, g) <==> if g in {f} then o == Tab(d, x) else Owns(m, o, g) {
      assert g == f && Owns(m, o, g) ==> o == Held;
    }
    MovedKeeps(m, n, {f}, Tab(d, x), all);
  }

  /** Only entry (x, y) of space d changes, since no two directory entries share a page table. */
  lemma SetPteAt(m: Mem, d: nat, x: Idx, y: Idx, e: Pte)
    requires Unique(m) && HasTable(m, d, x)
    ensures At(SetPte(m, d, x, y, e), d, x, y) == e && OnlyAt(m, SetPte(m, d, x, y, e), d, x, y)
    ensures Closed(m) ==> Closed(SetPte(m, d, x, y, e))
  {
    var n := SetPte(m, d, x, y, e);
    forall g, u: Idx, v | !(g == d && u == x && v == y) ensures SameAt(m, n, g, u, v) {
      if HasTable(m, g, u) {
        assert Owns(m, Tab(g, u), m.dirs[g][u].frame);
        assert Owns(m, Tab(d, x), m.dirs[d][x].frame);
      }
    }
  }

  lemma SetKernelKeeps(m: Mem, d: nat, x: Idx, y: Idx, e: Pte, all: set<nat>)
    requires Good(m, all) && HasTable(m, d, x) && x >= USERDIR
    ensures Good(SetPte(m, d, x, y, e), all)
  {
    var n := SetPte(m, d, x, y, e);
    SetPteAt(m, d, x, y, e);
    forall o, g ensures Owns(n, o, g) <==> Owns(m, o, g) {
      assert o.User? && o.x < USERDIR ==> SameAt(m, n, o.d, o.x, o.y);
    }
    MovedKeeps(m, n, {}, Held, all);
  }

  lemma AddPageKeeps(m: Mem, d: nat, x: Idx, y: Idx, e: Pte, all: set<nat>)
    requires Good(m, all) && HasTable(m, d, x) && x < USERDIR && At(m, d, x, y) == Absent && e.Pte? && e.frame in m.held
    ensures Good(AddPage(m, d, x, y, e), all)
    ensures OnlyAt(m, AddPage(m, d, x, y, e), d, x, y) && At(AddPage(m, d, x, y, e), d, x, y) == e
  {
    var k := m.(held := m.held - {e.frame});
    var n := SetPte(k, d, x, y, e);
    assert Unique(k) by {
      forall o, p, f | Owns(k, o, f) && Owns(k, p, f) ensures o == p {
        assert Owns(m, o, f) && Owns(m, p, f);
      }
    }
    SetPteAt(k, d, x, y, e);
    assert Owns(m, Held, e.frame);
    forall o, g ensures Owns(n, o, g) <==> if g in {e.frame} then o == User(d, x, y) else Owns(m, o, g) {
      assert o.User? && o != User(d, x, y) ==> SameAt(k, n, o.d, o.x, o.y);
      assert g == e.frame && Owns(m, o, g) ==> o == Held;
    }
    forall g, u, v | !(g == d && u == x && v == y) ensures SameAt(m, n, g, u, v) {
      assert SameAt(k, n, g, u, v);
    }
    MovedKeeps(m, n, {e.frame}, User(d, x, y), all);
  }

  lemma RemovePageKeeps(m: Mem, d: nat, x: Idx, y: Idx, all: set<nat>)
    requires Good(m, all) && HasTable(m, d, x) && x < USERDIR && At(m, d, x, y).Pte?
    ensures Good(RemovePage(m, d, x, y), all) && At(m, d, x, y).frame in all && At(m, d, x, y).frame !in m.held
    ensures OnlyAt(m, RemovePage(m, d, x, y), d, x, y) && At(RemovePage(m, d, x, y), d, x, y) == Absent
  {
    var f := At(m, d, x, y).frame;
    var n := SetPte(m, d, x, y, Absent);
    SetPteAt(m, d, x, y, Absent);
    assert Owns(m, User(d, x, y), f);
    assert !Owns(m, Held, f);
    var r := n.(held := m.held + {f});
    assert r == RemovePage(m, d, x, y);
    forall o, g ensures Owns(r, o, g) <==> if g in {f} then o == Held else Owns(m, o, g) {
      assert o.User? && o != User(d, x, y) ==> SameAt(m, n, o.d, o.x, o.y);
      assert g == f && Owns(m, o, g) ==> o == User(d, x, y);
    }
    forall g, u, v | !(g == d && u == x && v == y) ensures SameAt(m, r, g, u, v) {
      assert SameAt(m, n, g, u, v);
    }
    MovedKeeps(m, r, {f}, Held, all);
  }

  /** A directory whose user half is empty can be taken apart: nothing else names its frames. */
  lemma DropDirKeeps(m: Mem, d: nat, all: set<nat>)
    requires Good(m, all) && d in m.dirs && forall x: Idx, y: Idx | x < USERDIR :: At(m, d, x, y) == Absent
    ensures Good(DropDir(m, d), all)
    ensures forall e, x, y | e != d :: SameAt(m, DropDir(m, d), e, x, y)
    ensures forall f | f in TabFrames(m, d) + {d} :: f in all && f !in m.held
  {
    var n := DropDir(m, d);
    var fs := TabFrames(m, d) + {d};
    assert Owns(m, Dir, d);
    assert Owned(m, d);
    forall f | f in fs ensures f in all && f !in m.held && f !in m.free {
      if f != d {
        var x: Idx :| m.dirs[d][x].Pte? && m.dirs[d][x].frame == f;
        assert Owns(m, Tab(d, x), f) && Owned(m, f);
      }
      assert !Owns(m, Held, f) && !Owns(m, Free, f);
    }
    forall o, g ensures Owns(n, o, g) <==> if g in fs then o == Held else Owns(m, o, g) {
      DropOwns(m, d, o, g, all);
    }
    MovedKeeps(m, n, fs, Held, all);
  }

  lemma DropOwns(m: Mem, d: nat, o: Owner, g: nat, all: set<nat>)
    requires Good(m, all) && d in m.dirs && forall x: Idx, y: Idx | x < USERDIR :: At(m, d, x, y) == Absent
    ensures Owns(DropDir(m, d), o, g) <==> if g in TabFrames(m, d) + {d} then o == Held else Owns(m, o, g)
  {
    assert Owns(m, Dir, d);
    if g in TabFrames(m, d) {
      var x: Idx :| m.dirs[d][x].Pte? && m.dirs[d][x].frame == g;
      assert Owns(m, Tab(d, x), g);
      assert Owns(m, o, g) ==> o == Tab(d, x);
    }
    assert g == d && Owns(m, o, g) ==> o == Dir;
    assert o.User? && o.d != d ==> At(DropDir(m, d), o.d, o.x, o.y) == At(m, o.d, o.x, o.y);
    assert o.Tab? && o.d == d && Owns(m, o, g) ==> g in TabFrames(m, d);
  }
}
