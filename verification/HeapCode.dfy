/**
 * umalloc.c: the circular free list of headers, changed in place.
 *
 * A header lies at an address of memory and holds the size of its block and the address of the next
 * header in the ring. Every block is found from another by its address alone, so the list of free
 * blocks the ring stands for is a ghost field, and each method that relinks headers shows that the ring
 * is that of the list the value model gives.
 */
module HeapCode {
  import opened Heap

  // ptr and size of `union header`
  datatype Header = Header(ptr: nat, size: nat)

  type Memory = map<nat, Header>

  /** The address after ring position k; -1 is `base`. */
  function Succ(base: nat, free: seq<Blk>, k: int): nat
    requires -1 <= k < |free|
  {
    if k + 1 < |free| then free[k + 1].at else base
  }

  function Addr(base: nat, free: seq<Blk>, r: nat): nat
    requires r <= |free|
  {
    if r == 0 then base else free[r - 1].at
  }

  /** The header of ring position k (-1 for base) points to the next position. */
  ghost predicate LaidAt(base: nat, hdr: Memory, free: seq<Blk>, k: int)
    requires -1 <= k < |free|
  {
    var a := Addr(base, free, k + 1);
    a in hdr && hdr[a] == Header(Succ(base, free, k), if k == -1 then 0 else free[k].n)
  }

  /** The headers link base and the free blocks in a ring, in address order. */
  ghost predicate Laid(base: nat, hdr: Memory, free: seq<Blk>) {
    && (forall k | 0 <= k < |free| :: base < free[k].at)
    && forall k | -1 <= k < |free| :: LaidAt(base, hdr, free, k)
  }

  /** What free does to the headers, p being the block before bp. */
  function Linked(hdr: Memory, p: nat, bp: nat): Memory
    requires p in hdr && bp in hdr && p != bp && hdr[p].ptr in hdr
  {
    var b := if bp + hdr[bp].size == hdr[p].ptr
      then Header(hdr[hdr[p].ptr].ptr, hdr[bp].size + hdr[hdr[p].ptr].size)
      else Header(hdr[p].ptr, hdr[bp].size);
    hdr[bp := b][p := if p + hdr[p].size == bp then Header(b.ptr, hdr[p].size + b.size) else Header(bp, hdr[p].size)]
  }

  lemma InsertAt(free: seq<Blk>, b: Blk)
    ensures var r, lo, hi := Insert(free, b), Lo(free, b), Hi(free, b);
      && |r| == lo + 1 + |free| - hi && r[lo] == Joined(free, b)
      && (forall j | 0 <= j < lo :: r[j] == free[j])
      && (forall j | lo < j < |r| :: r[j] == free[j - lo - 1 + hi])
  {
  }

  /** The header where free's search stops. */
  lemma PrevHeader(base: nat, hdr: Memory, free: seq<Blk>, b: Blk)
    requires Laid(base, hdr, free) && base < b.at
    ensures var i := Below(free, b.at); var p := Addr(base, free, i);
      && p in hdr && base <= p < b.at && hdr[p].ptr == Succ(base, free, i - 1) && hdr[p].ptr in hdr
      && (i < |free| ==> hdr[free[i].at] == Header(Succ(base, free, i), free[i].n))
      && hdr[p].size == if i > 0 then free[i - 1].n else 0
  {
    var i := Below(free, b.at);
    assert LaidAt(base, hdr, free, i - 1);
    if i < |free| {
      assert LaidAt(base, hdr, free, i);
    } else {
      assert LaidAt(base, hdr, free, -1);
    }
  }

  /** Which neighbours the block touches, by addresses. */
  lemma JoinsAre(base: nat, free: seq<Blk>, b: Blk)
    requires Sorted(free) && Clear(free, b) && base < b.at && forall k | 0 <= k < |free| :: base < free[k].at
    ensures var i := Below(free, b.at); var p := Addr(base, free, i);
      && (JoinsNext(free, b) <==> End(b) == Succ(base, free, i - 1))
      && (JoinsPrev(free, b) <==> p + (if i > 0 then free[i - 1].n else 0) == b.at)
      && (forall k | 0 <= k < |free| :: free[k].at != b.at)
  {
  }

  /** Where free's search stops. */
  lemma PrevIs(base: nat, hdr: Memory, free: seq<Blk>, b: Blk)
    requires Laid(base, hdr, free) && Sorted(free) && Clear(free, b) && base < b.at
    ensures var i := Below(free, b.at); var p := Addr(base, free, i);
      && p in hdr && base <= p < b.at && hdr[p].ptr == Succ(base, free, i - 1) && hdr[p].ptr in hdr
      && (JoinsNext(free, b) <==> End(b) == hdr[p].ptr)
      && (JoinsPrev(free, b) <==> p + hdr[p].size == b.at)
      && (forall k | 0 <= k < |free| :: free[k].at != b.at)
      && (i < |free| ==> hdr[free[i].at] == Header(Succ(base, free, i), free[i].n))
      && hdr[p].size == if i > 0 then free[i - 1].n else 0
  {
    hide Sorted, Clear, LaidAt, JoinsNext, JoinsPrev, Succ, Addr;
    PrevHeader(base, hdr, free, b);
    JoinsAre(base, free, b);
  }

  /** The headers of ring positions other than p's are as they were. */
  lemma OtherHeader(base: nat, hdr: Memory, free: seq<Blk>, b: Blk, k: int)
    requires Laid(base, hdr, free) && Sorted(free) && Clear(free, b) && base < b.at && b.at in hdr
    requires -1 <= k < |free| && k != Below(free, b.at) - 1
    ensures var p, a := Addr(base, free, Rover(free, b)), Addr(base, free, k + 1);
      && p in hdr && p != b.at && hdr[p].ptr in hdr
      && a in hdr && Linked(hdr, p, b.at)[a] == hdr[a] == Header(Succ(base, free, k), if k == -1 then 0 else free[k].n)
  {
    PrevIs(base, hdr, free, b);
    assert LaidAt(base, hdr, free, k);
    var i := Below(free, b.at);
    assert k == -1 || i == 0 || (k < i - 1 && free[k].at < free[i - 1].at) || free[i - 1].at < free[k].at;
  }

  lemma RelinkedBelow(base: nat, hdr: Memory, free: seq<Blk>, b: Blk, k: int)
    requires Laid(base, hdr, free) && Sorted(free) && Clear(free, b) && base < b.at
    requires b.at in hdr && hdr[b.at].size == b.n && -1 <= k < Lo(free, b) && k < |Insert(free, b)|
    ensures var p := Addr(base, free, Rover(free, b));
      p in hdr && p != b.at && hdr[p].ptr in hdr && LaidAt(base, Linked(hdr, p, b.at), Insert(free, b), k)
  {
    hide Insert, Laid, Clear, Sorted, Below, JoinsPrev, JoinsNext;
    PrevIs(base, hdr, free, b);
    InsertAt(free, b);
    if k != Below(free, b.at) - 1 {
      OtherHeader(base, hdr, free, b, k);
    }
  }

  lemma RelinkedHere(base: nat, hdr: Memory, free: seq<Blk>, b: Blk)
    requires Laid(base, hdr, free) && Sorted(free) && Clear(free, b) && base < b.at
    requires b.at in hdr && hdr[b.at].size == b.n && Lo(free, b) < |Insert(free, b)|
    ensures var p := Addr(base, free, Rover(free, b));
      p in hdr && p != b.at && hdr[p].ptr in hdr && LaidAt(base, Linked(hdr, p, b.at), Insert(free, b), Lo(free, b))
  {
    hide Insert, Laid, Clear, Sorted, Below, JoinsPrev, JoinsNext;
    PrevIs(base, hdr, free, b);
    InsertAt(free, b);
  }

  lemma RelinkedAbove(base: nat, hdr: Memory, free: seq<Blk>, b: Blk, k: int)
    requires Laid(base, hdr, free) && Sorted(free) && Clear(free, b) && base < b.at
    requires b.at in hdr && hdr[b.at].size == b.n && Lo(free, b) < k < |Insert(free, b)|
    ensures var p := Addr(base, free, Rover(free, b));
      p in hdr && p != b.at && hdr[p].ptr in hdr && LaidAt(base, Linked(hdr, p, b.at), Insert(free, b), k)
  {
    hide Insert, Laid, Clear, Sorted, Below, JoinsPrev, JoinsNext;
    PrevIs(base, hdr, free, b);
    InsertAt(free, b);
    OtherHeader(base, hdr, free, b, k - Lo(free, b) - 1 + Hi(free, b));
  }

  lemma RelinkedAt(base: nat, hdr: Memory, free: seq<Blk>, b: Blk, k: int)
    requires Laid(base, hdr, free) && Sorted(free) && Clear(free, b) && base < b.at
    requires b.at in hdr && hdr[b.at].size == b.n && -1 <= k < |Insert(free, b)|
    ensures var p := Addr(base, free, Rover(free, b));
      p in hdr && p != b.at && hdr[p].ptr in hdr && LaidAt(base, Linked(hdr, p, b.at), Insert(free, b), k)
  {
    hide *;
    if k < Lo(free, b) {
      RelinkedBelow(base, hdr, free, b, k);
    } else if k == Lo(free, b) {
      RelinkedHere(base, hdr, free, b);
    } else {
      RelinkedAbove(base, hdr, free, b, k);
    }
  }

  lemma InsertAbove(base: nat, hdr: Memory, free: seq<Blk>, b: Blk)
    requires Laid(base, hdr, free) && Sorted(free) && Clear(free, b) && base < b.at
    ensures forall k | 0 <= k < |Insert(free, b)| :: base < Insert(free, b)[k].at
    ensures Rover(free, b) <= |Insert(free, b)|
    ensures Addr(base, Insert(free, b), Rover(free, b)) == Addr(base, free, Rover(free, b))
  {
    hide Insert, LaidAt, In, Clear;
    InsertAt(free, b);
    InsertKeeps(free, b);
    var r := Insert(free, b);
    forall k | 0 <= k < |r| ensures base < r[k].at {
      assert k > Lo(free, b) ==> r[k] == free[k - Lo(free, b) - 1 + Hi(free, b)];
    }
  }

  lemma Relinked(base: nat, hdr: Memory, free: seq<Blk>, b: Blk)
    requires Laid(base, hdr, free) && Sorted(free) && Clear(free, b) && base < b.at
    requires b.at in hdr && hdr[b.at].size == b.n
    ensures var p := Addr(base, free, Rover(free, b));
      && p in hdr && base <= p != b.at && hdr[p].ptr in hdr
      && Laid(base, Linked(hdr, p, b.at), Insert(free, b))
      && Rover(free, b) <= |Insert(free, b)| && Addr(base, Insert(free, b), Rover(free, b)) == p
  {
    hide Insert, LaidAt, Sorted, Clear, Linked;
    var p, r := Addr(base, free, Rover(free, b)), Insert(free, b);
    InsertAbove(base, hdr, free, b);
    PrevIs(base, hdr, free, b);
    RelinkedAt(base, hdr, free, b, -1);
    forall k | -1 <= k < |r| ensures LaidAt(base, Linked(hdr, p, b.at), r, k) {
      RelinkedAt(base, hdr, free, b, k);
    }
  }

  // Allocating ------------------------------------------------------------------------------------

  function SetSize(hdr: Memory, p: nat, n: nat): Memory {
    hdr[p := Header(if p in hdr then hdr[p].ptr else 0, n)]
  }

  /** What malloc does to the headers when the block p after prevp has room. */
  function Cut(hdr: Memory, prevp: nat, p: nat, n: nat): Memory
    requires prevp in hdr && p in hdr && n <= hdr[p].size
  {
    if hdr[p].size == n then hdr[prevp := Header(hdr[p].ptr, hdr[prevp].size)]
    else
      var rest := hdr[p].size - n;
      SetSize(SetSize(hdr, p, rest), p + rest, n)
  }

  lemma LaidGives(base: nat, hdr: Memory, free: seq<Blk>, k: int)
    requires Laid(base, hdr, free) && -1 <= k < |free|
    ensures LaidAt(base, hdr, free, k)
  {
  }

  lemma AddrLess(base: nat, hdr: Memory, free: seq<Blk>, i: nat, j: nat)
    requires Laid(base, hdr, free) && Sorted(free) && i < j <= |free|
    ensures Addr(base, free, i) < Addr(base, free, j)
    ensures i > 0 ==> End(free[i - 1]) < Addr(base, free, j)
  {
    hide LaidAt;
  }

  /** The block is taken whole: its predecessor skips it. */
  lemma RemovedAt(base: nat, hdr: Memory, free: seq<Blk>, k: nat, i: int)
    requires Laid(base, hdr, free) && Sorted(free) && k < |free| && -1 <= i < |free| - 1
    requires Addr(base, free, k) in hdr && free[k].at in hdr && hdr[free[k].at].size == free[k].n > 0
    ensures LaidAt(base, Cut(hdr, Addr(base, free, k), free[k].at, free[k].n), Take(free, k, free[k].n), i)
  {
    hide Laid, Sorted;
    var t, j := Take(free, k, free[k].n), if i < k then i else i + 1;
    assert forall j | k <= j < |t| :: t[j] == free[j + 1];
    LaidGives(base, hdr, free, j);
    LaidGives(base, hdr, free, k);
    if j + 1 < k {
      AddrLess(base, hdr, free, j + 1, k);
    } else if k < j + 1 {
      AddrLess(base, hdr, free, k, j + 1);
    }
  }

  /** Part of the block is taken: it stays, shorter, and a block of n begins behind it. */
  lemma ShrunkAt(base: nat, hdr: Memory, free: seq<Blk>, k: nat, n: nat, i: int)
    requires Laid(base, hdr, free) && Sorted(free) && k < |free| && 0 < n < free[k].n && -1 <= i < |free|
    requires Addr(base, free, k) in hdr && free[k].at in hdr && hdr[free[k].at].size == free[k].n
    ensures LaidAt(base, Cut(hdr, Addr(base, free, k), free[k].at, n), Take(free, k, n), i)
  {
    hide Laid, Sorted;
    LaidGives(base, hdr, free, i);
    if i < k {
      AddrLess(base, hdr, free, i + 1, k + 1);
    } else if k < i {
      AddrLess(base, hdr, free, k + 1, i + 1);
    }
  }

  lemma CutLaid(base: nat, hdr: Memory, free: seq<Blk>, k: nat, n: nat)
    requires Laid(base, hdr, free) && Sorted(free) && k < |free| && 0 < n <= free[k].n
    ensures Addr(base, free, k) in hdr && free[k].at in hdr && hdr[free[k].at].size == free[k].n
    ensures var prevp, hdr' := Addr(base, free, k), Cut(hdr, Addr(base, free, k), free[k].at, n);
      && Laid(base, hdr', Take(free, k, n)) && k <= |Take(free, k, n)| && Addr(base, Take(free, k, n), k) == prevp
      && End(free[k]) - n in hdr' && hdr'[End(free[k]) - n].size == n
  {
    hide Cut, Take, LaidAt, In;
    PrevOf(base, hdr, free, k, n);
    TakeKeeps(free, k, n);
    TakeAbove(base, hdr, free, k, n);
    forall i | -1 <= i < |Take(free, k, n)|
      ensures LaidAt(base, Cut(hdr, Addr(base, free, k), free[k].at, n), Take(free, k, n), i)
    {
      TakeSize(free, k, n);
      if free[k].n == n {
        RemovedAt(base, hdr, free, k, i);
      } else {
        ShrunkAt(base, hdr, free, k, n, i);
      }
    }
  }

  lemma PrevOf(base: nat, hdr: Memory, free: seq<Blk>, k: nat, n: nat)
    requires Laid(base, hdr, free) && Sorted(free) && k < |free| && 0 < n <= free[k].n
    ensures Addr(base, free, k) in hdr && free[k].at in hdr && hdr[free[k].at].size == free[k].n
    ensures hdr[Addr(base, free, k)].ptr == free[k].at
    ensures var hdr' := Cut(hdr, Addr(base, free, k), free[k].at, n);
      End(free[k]) - n in hdr' && hdr'[End(free[k]) - n].size == n
  {
    hide Laid, Sorted;
    LaidGives(base, hdr, free, k);
    LaidGives(base, hdr, free, k - 1);
    AddrLess(base, hdr, free, k, k + 1);
  }

  lemma TakeSize(free: seq<Blk>, k: nat, n: nat)
    requires k < |free| && free[k].n >= n
    ensures |Take(free, k, n)| == if free[k].n == n then |free| - 1 else |free|
  {
  }

  lemma TakeAbove(base: nat, hdr: Memory, free: seq<Blk>, k: nat, n: nat)
    requires Laid(base, hdr, free) && k < |free| && 0 < n <= free[k].n
    ensures forall i | 0 <= i < |Take(free, k, n)| :: base < Take(free, k, n)[i].at
    ensures k <= |Take(free, k, n)| && Addr(base, Take(free, k, n), k) == Addr(base, free, k)
  {
    hide LaidAt;
    var t := Take(free, k, n);
    forall i | 0 <= i < |t| ensures base < t[i].at {
      assert t[i].at == free[if free[k].n == n && i >= k then i + 1 else i].at;
    }
  }

  /** Ring position r + v, going round. */
  function Pos(free: seq<Blk>, r: nat, v: nat): (q: nat)
    requires r <= |free| && v <= |free| + 1
    ensures q <= |free|
  {
    if r + v <= |free| then r + v else r + v - |free| - 1
  }

  /** Ring position q has fewer than n units; base has none. */
  predicate TooSmall(free: seq<Blk>, q: nat, n: nat)
    requires q <= |free| && n > 0
  {
    q == 0 || free[q - 1].n < n
  }

  lemma FirstFitIs(free: seq<Blk>, r: nat, v: nat, n: nat)
    requires r <= |free| && v <= |free| && n > 0
    requires forall w | 1 <= w <= v :: TooSmall(free, Pos(free, r, w), n)
    requires !TooSmall(free, Pos(free, r, v + 1), n)
    ensures FirstFit(free, r, n) == Pos(free, r, v + 1) - 1 == Pos(free, r, v)
  {
    var q := Pos(free, r, v + 1);
    if q > r {
      forall j | r <= j < q - 1 ensures free[j].n < n {
        assert Pos(free, r, j + 1 - r) == j + 1;
      }
    } else {
      forall j | r <= j < |free| ensures free[j].n < n {
        assert Pos(free, r, j + 1 - r) == j + 1;
      }
      forall j | 0 <= j < q - 1 ensures free[j].n < n {
        assert Pos(free, r, j + 2 + |free| - r) == j + 1;
      }
    }
  }

  lemma NoFit(free: seq<Blk>, r: nat, n: nat)
    requires r <= |free| && n > 0
    requires forall w | 1 <= w <= |free| + 1 :: TooSmall(free, Pos(free, r, w), n)
    ensures FirstFit(free, r, n) == |free|
  {
    forall j | 0 <= j < |free| ensures free[j].n < n {
      assert Pos(free, r, if j >= r then j + 1 - r else j + 2 + |free| - r) == j + 1;
    }
  }

  const UNIT: nat := 8  // sizeof(Header)

  /** The units malloc takes for nbytes: the bytes rounded up, and a header. */
  function NUnits(nbytes: nat): (n: nat)
    ensures n > 0 && nbytes <= UNIT * (n - 1) < nbytes + UNIT
  {
    (nbytes + UNIT - 1) / UNIT + 1
  }

  class UserHeap {
    const base: nat   // where `base` is, below all that sbrk gives
    var hdr: Memory
    var freep: nat    // 0 is the null pointer
    var brk: nat
    ghost var h: Heap

    ghost predicate Valid()
      reads this
    {
      && 0 < base < brk && Good(h)
      && (if freep == 0 then h == EMPTY else Laid(base, hdr, h.free) && freep == Addr(base, h.free, h.rover))
      && (forall a | a in h.live :: base < a && a in hdr && hdr[a].size == h.live[a])
      && (forall i | 0 <= i < |h.arena| :: base < h.arena[i].at && End(h.arena[i]) <= brk)
    }

    constructor (base: nat, brk: nat)
      requires 0 < base < brk
      ensures Valid() && h == EMPTY
    {
      this.base, this.brk := base, brk;
      hdr, freep := map[], 0;
      h := EMPTY;
    }

    /** The system call: `have` says whether there is memory. Others may call it too. */
    method Sbrk(n: nat, have: bool) returns (p: Option<nat>)
      requires Valid()
      modifies this`brk
      ensures Valid() && p == (if have then Some(old(brk)) else None) && brk == old(brk) + if have then n else 0
    {
      if !have {
        return None;
      }
      p := Some(brk);
      brk := brk + n;
    }

    /** The loop of free: the block in the ring before bp. */
    method FindPrev(bp: nat, ghost b: Blk) returns (p: nat)
      requires Valid() && freep != 0 && b.at == bp > base && Clear(h.free, b)
      ensures p == Addr(base, h.free, Below(h.free, bp))
    {
      hide Tiled, Clear, Laid, Sorted, Below;
      ghost var t: nat, j: nat, m: nat := Below(h.free, bp), h.rover, |h.free| + 1;
      p := freep;
      Steps(b, j);
      while !(bp > p && bp < hdr[p].ptr)
        invariant 0 <= j <= |h.free| && p == Addr(base, h.free, j) && p in hdr
        invariant hdr[p].ptr == Succ(base, h.free, j - 1)
        invariant j == t <==> (bp > p && bp < hdr[p].ptr) || (p >= hdr[p].ptr && (bp > p || bp < hdr[p].ptr))
        decreases if j <= t then t - j else t - j + m
      {
        if p >= hdr[p].ptr && (bp > p || bp < hdr[p].ptr) {
          break;
        }
        p := hdr[p].ptr;
        j := if j == |h.free| then 0 else j + 1;
        Steps(b, j);
      }
    }

    /** At ring position j the loop of free stops exactly at b's place. */
    lemma Steps(b: Blk, j: nat)
      requires Valid() && freep != 0 && b.at > base && Clear(h.free, b) && j <= |h.free|
      ensures var p := Addr(base, h.free, j);
        && p in hdr && hdr[p].ptr == Succ(base, h.free, j - 1)
        && (j == Below(h.free, b.at) <==>
            (b.at > p && b.at < hdr[p].ptr) || (p >= hdr[p].ptr && (b.at > p || b.at < hdr[p].ptr)))
    {
      hide Tiled;
      LaidGives(base, hdr, h.free, j - 1);
      if j < |h.free| {
        AddrLess(base, hdr, h.free, j, j + 1);
      }
      if j > 0 {
        AddrLess(base, hdr, h.free, 0, j);
      }
    }
  
    /** free without the pointer arithmetic: put the block with header bp back in the ring. */
    method PutBack(bp: nat, ghost b: Blk)
      requires Valid() && freep != 0 && b.at == bp > base && Clear(h.free, b)
      requires bp in hdr && hdr[bp].size == b.n
      modifies this`hdr, this`freep
      ensures Laid(base, hdr, Insert(h.free, b)) && Rover(h.free, b) <= |Insert(h.free, b)|
      ensures freep == Addr(base, Insert(h.free, b), Rover(h.free, b)) >= base
      ensures forall a :: a in hdr <==> a in old(hdr)
      ensures forall a | a in hdr && a != bp && a != base && (forall k | 0 <= k < |h.free| :: a != h.free[k].at) ::
        hdr[a] == old(hdr)[a]
    {
      hide Tiled, Clear, Laid, Sorted, Below, Insert, In;
      Relinked(base, hdr, h.free, b);
      var p := FindPrev(bp, b);
      ghost var want := Linked(hdr, p, bp);
      if bp + hdr[bp].size == hdr[p].ptr {
        var next := hdr[p].ptr;
        hdr := hdr[bp := hdr[bp].(size := hdr[bp].size + hdr[next].size)];
        hdr := hdr[bp := hdr[bp].(ptr := hdr[next].ptr)];
      } else {
        hdr := hdr[bp := hdr[bp].(ptr := hdr[p].ptr)];
      }
      if p + hdr[p].size == bp {
        hdr := hdr[p := hdr[p].(size := hdr[p].size + hdr[bp].size)];
        hdr := hdr[p := hdr[p].(ptr := hdr[bp].ptr)];
      } else {
        hdr := hdr[p := hdr[p].(ptr := bp)];
      }
      freep := p;
      assert hdr == want;
    }
  
    /** Live headers are neither base's nor a free block's. */
    lemma LiveApart(a: nat)
      requires Valid() && a in h.live
      ensures a != base && forall k | 0 <= k < |h.free| :: a != h.free[k].at
    {
      hide Laid, Sorted;
      forall k | 0 <= k < |h.free| ensures a != h.free[k].at {
        assert InLive(h.live, a);
        FreeIn(h, k);
      }
    }

    static lemma FreeIn(h: Heap, k: nat)
      requires Good(h) && k < |h.free|
      ensures In(h.free, h.free[k].at)
    {
    }

    /** free(ap) for a pointer malloc gave. Other live blocks keep their headers. */
    method Free(ap: nat)
      requires Valid() && ap > 0 && ap - 1 in h.live
      modifies this`hdr, this`freep, this`h
      ensures Valid() && h == Release(old(h), ap - 1)
      ensures h.live == old(h).live - {ap - 1} && h.arena == old(h).arena
      ensures forall u: nat :: In(h.free, u) <==> In(old(h).free, u) || ap - 1 <= u < ap - 1 + old(h).live[ap - 1]
      ensures forall a | a in h.live :: hdr[a] == old(hdr)[a]
    {
      hide Tiled, Clear, Laid, Sorted, Below, Insert, In;
      var bp := ap - 1;
      ghost var b := Blk(bp, h.live[bp]);
      ReleaseKeeps(h, bp);
      forall a | a in h.live ensures a != base && forall k | 0 <= k < |h.free| :: a != h.free[k].at {
        LiveApart(a);
      }
      PutBack(bp, b);
      h := Release(h, bp);
    }

    /** morecore: 0 if sbrk has no more. */
    method Morecore(n: nat, have: bool) returns (p: nat)
      requires Valid() && freep != 0 && n > 0
      modifies this`hdr, this`freep, this`brk, this`h
      ensures Valid() && freep != 0
      ensures if have then p == freep && h == Grow(old(h), old(brk), n)
              else p == 0 && h == old(h) && freep == old(freep)
      ensures h.live == old(h.live) && brk == old(brk) + if !have then 0 else if n < 4096 then 4096 else n
      ensures forall a | a in h.live :: a in hdr && hdr[a] == old(hdr)[a]
    {
      hide Tiled, Clear, Laid, Sorted, Below, Insert, In, FirstFit;
      var nu := if n < 4096 then 4096 else n;
      var q := Sbrk(nu, have);
      if q.None? {
        return 0;
      }
      var hp := q.value;
      ghost var b, h0 := Blk(hp, nu), h;
      GrowKeeps(h, hp, n);
      forall a | a in h.live ensures a != base && a != hp && forall k | 0 <= k < |h.free| :: a != h.free[k].at {
        LiveApart(a);
        LiveBelow(a);
      }
      SetAbove(hp, nu);
      hdr := SetSize(hdr, hp, nu);
      PutBack(hp, b);
      h := Grow(h, hp, n);
      p := freep;
    }

    lemma LiveBelow(a: nat)
      requires Valid() && a in h.live
      ensures exists i :: 0 <= i < |h.arena| && a < End(h.arena[i])
    {
      assert InLive(h.live, a);
      assert In(h.arena, a);
    }

    /** A header above the heap is no part of the ring. */
    lemma SetAbove(p: nat, n: nat)
      requires Valid() && freep != 0 && forall i | 0 <= i < |h.arena| :: End(h.arena[i]) <= p
      requires base < p
      ensures Laid(base, SetSize(hdr, p, n), h.free)
    {
      forall k | 0 <= k < |h.free| ensures h.free[k].at < p {
        FreeIn(h, k);
        assert In(h.arena, h.free[k].at);
      }
      hide Tiled;
      forall k | -1 <= k < |h.free| ensures LaidAt(base, SetSize(hdr, p, n), h.free, k) {
        LaidGives(base, hdr, h.free, k);
      }
    }
  
    /** malloc's block: p has room, and is the block the search is to find. */
    method TakeBlock(prevp: nat, p: nat, n: nat) returns (a: nat)
      requires Valid() && freep != 0 && n > 0 && Fits(h, n)
      requires prevp == Addr(base, h.free, FirstFit(h.free, h.rover, n))
      requires p == h.free[FirstFit(h.free, h.rover, n)].at
      modifies this`hdr, this`freep, this`h
      ensures Valid() && h == Alloc(old(h), n) && a == End(old(h.free[FirstFit(h.free, h.rover, n)])) - n
      ensures forall x | x in old(h.live) :: x in hdr && hdr[x] == old(hdr)[x]
    {
      hide Tiled, Laid, Sorted, In, Take, FirstFit, Cut;
      ghost var k := FirstFit(h.free, h.rover, n);
      AllocKeeps(h, n);
      CutLaid(base, hdr, h.free, k, n);
      PrevOf(base, hdr, h.free, k, n);
      AboveBase(k);
      forall x | x in h.live
        ensures x != base && (forall i | 0 <= i < |h.free| :: x != h.free[i].at) && x != End(h.free[k]) - n
      {
        LiveApart(x);
        Given(h, n);
      }
      a := CutBlock(prevp, p, n);
      h := Alloc(h, n);
    }

    method CutBlock(prevp: nat, p: nat, n: nat) returns (a: nat)
      requires prevp in hdr && p in hdr && 0 < n <= hdr[p].size
      modifies this`hdr, this`freep
      ensures hdr == Cut(old(hdr), prevp, p, n) && freep == prevp && a == p + old(hdr[p].size) - n
      ensures forall x | x in old(hdr) && x != prevp && x != p && x != a :: hdr[x] == old(hdr)[x]
      ensures forall x | x in old(hdr) :: x in hdr
    {
      a := p;
      if hdr[p].size == n {
        hdr := hdr[prevp := hdr[prevp].(ptr := hdr[p].ptr)];
      } else {
        hdr := SetSize(hdr, p, hdr[p].size - n);
        a := p + hdr[p].size;
        hdr := SetSize(hdr, a, n);
      }
      freep := prevp;
    }

    lemma AboveBase(k: nat)
      requires Valid() && freep != 0 && k < |h.free|
      ensures base < h.free[k].at && Addr(base, h.free, k) >= base
    {
      hide Tiled, LaidAt;
    }

    /** One step of malloc's search round the ring. */
    lemma SearchStep(v: nat)
      requires Valid() && freep != 0 && v <= |h.free|
      ensures h.rover <= |h.free| && freep == Addr(base, h.free, Pos(h.free, h.rover, 0))
      ensures var q, p := Pos(h.free, h.rover, v + 1), Addr(base, h.free, Pos(h.free, h.rover, v));
        && p in hdr && hdr[p].ptr == Addr(base, h.free, q) && hdr[p].ptr in hdr
        && hdr[hdr[p].ptr].size == (if q == 0 then 0 else h.free[q - 1].n)
        && (hdr[p].ptr == freep <==> v == |h.free|)
    {
      hide Tiled;
      var q := Pos(h.free, h.rover, v + 1);
      LaidGives(base, hdr, h.free, Pos(h.free, h.rover, v) - 1);
      LaidGives(base, hdr, h.free, q - 1);
      if q < h.rover {
        AddrLess(base, hdr, h.free, q, h.rover);
      } else if h.rover < q {
        AddrLess(base, hdr, h.free, h.rover, q);
      }
    }

    /** malloc; `have` is what sbrk would answer. The size sbrk is asked for must fit its argument. */
    method Malloc(nbytes: nat, have: bool) returns (r: Option<nat>)
      requires Valid() && UNIT * NUnits(nbytes) < 0x8000_0000
      modifies this
      ensures Valid()
      ensures var more := if have then Some(old(brk)) else None;
        && Enabled(old(h), Step.Malloc(NUnits(nbytes), more))
        && h == DoMalloc(old(h), NUnits(nbytes), more).0
        && r == match DoMalloc(old(h), NUnits(nbytes), more).1 case None => None case Some(a) => Some(a + 1)
      ensures r.None? <==> !have && forall k | 0 <= k < |old(h).free| :: old(h).free[k].n < NUnits(nbytes)
      ensures r.Some? ==> r.value > 0 && r.value - 1 !in old(h).live
      ensures h.live == if r.None? then old(h).live else old(h).live[r.value - 1 := NUnits(nbytes)]
      ensures forall a | a in old(h.live) :: a in hdr && hdr[a] == old(hdr)[a]
    {
      hide Valid, NUnits, DoMalloc, Enabled, Good;
      var n := NUnits(nbytes);
      MallocOk(n, have);
      MallocGives(h, n, if have then Some(brk) else None);
      if freep == 0 {
        Init();
      }
      r := Search(n, have);
    }

    /** The loop of malloc. */
    method Search(n: nat, have: bool) returns (r: Option<nat>)
      requires Valid() && freep != 0 && n > 0 && UNIT * n < 0x8000_0000
      modifies this
      ensures Valid()
      ensures var more := if have then Some(old(brk)) else None;
        && Enabled(old(h), Step.Malloc(n, more))
        && h == DoMalloc(old(h), n, more).0
        && r == match DoMalloc(old(h), n, more).1 case None => None case Some(a) => Some(a + 1)
      ensures forall a | a in old(h.live) :: a in hdr && hdr[a] == old(hdr)[a]
    {
      hide Valid, Laid, Sorted, In, Take, FirstFit, Insert, Alloc, Grow, Pos, Enabled, Good;
      MallocOk(n, have);
      ghost var h0, brk0 := h, brk;
      var prevp := freep;
      ghost var v, grown := 0, false;
      SearchStep(0);
      var p := hdr[prevp].ptr;
      while true
        invariant Valid() && freep != 0 && 0 <= v <= |h.free| && h.rover <= |h.free|
        invariant prevp == Addr(base, h.free, Pos(h.free, h.rover, v))
        invariant prevp in hdr && p == hdr[prevp].ptr
        invariant forall w | 1 <= w <= v :: TooSmall(h.free, Pos(h.free, h.rover, w), n)
        invariant if grown then have && h == Grow(h0, brk0, n) && Fits(h, n) && !Fits(h0, n) else h == h0 && brk == brk0
        invariant forall a | a in h0.live :: a in h.live && a in hdr && hdr[a] == old(hdr)[a]
        decreases !grown, |h.free| - v
      {
        SearchStep(v);
        if hdr[p].size >= n {
          FirstFitIs(h.free, h.rover, v, n);
          var a := TakeBlock(prevp, p, n);
          return Some(a + 1);
        }
        v := v + 1;
        if p == freep {
          NoFit(h.free, h.rover, n);
          GrowFits(n);
          p := Morecore(n, have);
          if p == 0 {
            return None;
          }
          grown, v := true, 0;
        }
        prevp := p;
        SearchStep(v);
        p := hdr[p].ptr;
      }
    }

    /** What malloc may rely on. */
    lemma MallocOk(n: nat, have: bool)
      requires Valid() && n > 0
      ensures Enabled(h, Step.Malloc(n, if have then Some(brk) else None))
      ensures Good(h) && h.rover <= |h.free| && forall a | a in h.live :: a in hdr
    {
    }

    lemma GrowFits(n: nat)
      requires Valid() && n > 0
      ensures Good(Grow(h, brk, n)) && Fits(Grow(h, brk, n), n)
    {
      GrowKeeps(h, brk, n);
    }

    /** The first call of malloc: base alone is the ring. */
    method Init()
      requires Valid() && freep == 0
      modifies this`hdr, this`freep
      ensures Valid() && freep != 0 && h.live == map[]
    {
      hdr := hdr[base := Header(base, 0)];
      freep := base;
    }
  }
}
