/**
 * User memory as bytes (copyout and uva2ka in vm.c): what the kernel writes for one process no other process sees.
 */
module VmBytes {
  import opened Vm
  import opened VmOps
  import opened VmSpaces
  import opened VmFork

  /** PTE_U is set. */
  predicate UserPte(e: Pte): (b: bool)
    ensures b ==> e.Pte?
  {
    e.Pte? && e.flags / 4 % 2 == 1
  }

  /** What process d reads at user address a, if the page is mapped. */
  function UserByte(m: Mem, d: nat, a: nat): Option<byte>
    requires a < KERNBASE
  {
    var e := Entry(m, d, a / PGSIZE);
    if e.Pte? then Some(Bytes(m, e.frame)[a % PGSIZE]) else None
  }

  function Splice(page: Page, at: nat, s: seq<byte>): Page
    requires at + |s| <= PGSIZE
  {
    page[..at] + s + page[at + |s|..]
  }

  function Piece(va: nat, len: nat): (n: nat)
    ensures n <= len && va % PGSIZE + n <= PGSIZE && (len > 0 ==> n > 0)
  {
    if PGSIZE - va % PGSIZE > len then len else PGSIZE - va % PGSIZE
  }

  /** copyout: page by page, up to the first page the user may not touch. The number is how many bytes were copied. */
  function CopyOut(m: Mem, d: nat, va: nat, s: seq<byte>): (r: (Mem, nat))
    requires va + |s| <= KERNBASE
    decreases |s|
  {
    if s == [] then (m, 0)
    else
      var e := Entry(m, d, va / PGSIZE);
      var n := Piece(va, |s|);
      if !UserPte(e) then (m, 0)
      else
        var r := CopyOut(Fill(m, e.frame, Splice(Bytes(m, e.frame), va % PGSIZE, s[..n])), d, va + n, s[n..]);
        (r.0, n + r.1)
  }

  /** Between m and n only the bytes of d from va on changed, to s. */
  ghost predicate Wrote(m: Mem, n: Mem, d: nat, va: nat, s: seq<byte>)
    requires va + |s| <= KERNBASE
  {
    forall e, a | 0 <= a < KERNBASE ::
      UserByte(n, e, a) == if e == d && va <= a < va + |s| then Some(s[a - va]) else UserByte(m, e, a)
  }

  /** Only contents changed. */
  predicate SameTables(m: Mem, n: Mem) {
    n.free == m.free && n.held == m.held && n.dirs == m.dirs && n.tables == m.tables
  }

  lemma TablesGood(m: Mem, n: Mem, all: set<nat>)
    requires Good(m, all) && SameTables(m, n)
    ensures Good(n, all)
  {
    assert forall e, x, y :: At(n, e, x, y) == At(m, e, x, y);
    MovedKeeps(m, n, {}, Held, all);
  }

  lemma {:induction false} PieceWrote(m: Mem, d: nat, va: nat, s: seq<byte>, all: set<nat>)
    requires Good(m, all) && va + |s| <= KERNBASE && va % PGSIZE + |s| <= PGSIZE
    requires |s| > 0 && Entry(m, d, va / PGSIZE).Pte?
    ensures var f := Entry(m, d, va / PGSIZE).frame; Wrote(m, Fill(m, f, Splice(Bytes(m, f), va % PGSIZE, s)), d, va, s)
  {
    hide Good;
    var f := Entry(m, d, va / PGSIZE).frame;
    var n := Fill(m, f, Splice(Bytes(m, f), va % PGSIZE, s));
    forall e, a | 0 <= a < KERNBASE
      ensures UserByte(n, e, a) == if e == d && va <= a < va + |s| then Some(s[a - va]) else UserByte(m, e, a)
    {
      assert Entry(n, e, a / PGSIZE) == Entry(m, e, a / PGSIZE);
      if Entry(m, e, a / PGSIZE).Pte? {
        NoSharing(m, d, va / PGSIZE, e, a / PGSIZE, all);
        assert Entry(m, e, a / PGSIZE).frame == f ==> a % PGSIZE - va % PGSIZE == a - va;
      }
    }
  }

  lemma WroteBoth(m: Mem, k: Mem, n: Mem, d: nat, va: nat, s: seq<byte>, t: seq<byte>)
    requires va + |s| + |t| <= KERNBASE && Wrote(m, k, d, va, s) && Wrote(k, n, d, va + |s|, t)
    ensures Wrote(m, n, d, va, s + t)
  {
  }

  /**
   * copyout writes the bytes it reports, to that process alone; it stops short exactly at a page that is absent or
   * not the user's.
   */
  lemma {:induction false} CopyOutIs(m: Mem, d: nat, va: nat, s: seq<byte>, all: set<nat>)
    requires Good(m, all) && va + |s| <= KERNBASE
    ensures var r := CopyOut(m, d, va, s);
      r.1 <= |s| && Good(r.0, all) && SameTables(m, r.0) && Wrote(m, r.0, d, va, s[..r.1])
    ensures var r := CopyOut(m, d, va, s); r.1 < |s| ==> !UserPte(Entry(m, d, (va + r.1) / PGSIZE))
    ensures forall a | va <= a < va + CopyOut(m, d, va, s).1 :: UserPte(Entry(m, d, a / PGSIZE))
    decreases |s|
  {
    hide Good, Wrote, Splice, Entry, UserPte, Bytes;
    var e := Entry(m, d, va / PGSIZE);
    var n := Piece(va, |s|);
    if s == [] || !UserPte(e) {
      WroteNone(m, d, va);
      assert s[..0] == [];
    } else {
      var k := Fill(m, e.frame, Splice(Bytes(m, e.frame), va % PGSIZE, s[..n]));
      PieceWrote(m, d, va, s[..n], all);
      TablesGood(m, k, all);
      CopyOutIs(k, d, va + n, s[n..], all);
      var r := CopyOut(k, d, va + n, s[n..]);
      WroteBoth(m, k, r.0, d, va, s[..n], s[n..][..r.1]);
      Joined(s, n, r.1);
      SameEntries(m, k, d, (va + n + r.1) / PGSIZE);
      UserBoth(m, k, d, va, n, r.1);
    }
  }

  lemma Joined(s: seq<byte>, n: nat, c: nat)
    requires n + c <= |s|
    ensures s[..n] + s[n..][..c] == s[..n + c]
  {
  }

  lemma SameEntries(m: Mem, k: Mem, d: nat, p: nat)
    requires SameTables(m, k) && p < PAGES
    ensures Entry(k, d, p) == Entry(m, d, p)
  {
  }

  lemma UserBoth(m: Mem, k: Mem, d: nat, va: nat, n: nat, c: nat)
    requires SameTables(m, k) && va + n + c <= KERNBASE
    requires va % PGSIZE + n <= PGSIZE && UserPte(Entry(m, d, va / PGSIZE))
    requires forall a | va + n <= a < va + n + c :: UserPte(Entry(k, d, a / PGSIZE))
    ensures forall a | va <= a < va + n + c :: UserPte(Entry(m, d, a / PGSIZE))
  {
    forall a | va <= a < va + n + c ensures UserPte(Entry(m, d, a / PGSIZE)) {
      SameEntries(m, k, d, a / PGSIZE);
      assert a < va + n ==> a / PGSIZE == va / PGSIZE;
    }
  }

  lemma WroteNone(m: Mem, d: nat, va: nat)
    requires va <= KERNBASE
    ensures Wrote(m, m, d, va, [])
  {
  }

  /** After fork the child reads what the parent read, and every other process what it read before. */
  lemma {:induction false} ForkReads(m: Mem, d: nat, sz: nat, data: nat, a: nat, all: set<nat>)
    requires Good(m, all) && d in m.dirs && 0x100 < data < 0xE000 && sz < KERNBASE
    requires AllPresent(m, d, 0, Up(sz)) && AllAbsent(m, d, Up(sz), USERPAGES)
    requires CopyUvm(m, d, sz, data).1.Some? && a < KERNBASE
    ensures var r := CopyUvm(m, d, sz, data); UserByte(r.0, r.1.value, a) == UserByte(m, d, a)
    ensures var r := CopyUvm(m, d, sz, data); forall g | g != r.1.value :: UserByte(r.0, g, a) == UserByte(m, g, a)
  {
    hide Good, CopyUvm;
    GoodIs(m, all);
    CopyUvmIs(m, d, sz, data, all);
    var n, e := CopyUvm(m, d, sz, data).0, CopyUvm(m, d, sz, data).1.value;
    var p := a / PGSIZE;
    if p < Up(sz) {
      assert GotPage(m, n, e, p, Bytes(m, Entry(m, d, p).frame), Entry(m, d, p).flags);
    } else {
      assert Entry(m, d, p) == Absent && Entry(n, e, p) == Absent;
    }
    forall g | g != e ensures UserByte(n, g, a) == UserByte(m, g, a) {
      assert SameAt(m, n, g, Pdx(p), Ptx(p));
    }
  }
}
