/** The user heap (umalloc.c) as a value: free blocks in address order, the rover, and live blocks. */
module Heap {
  // Addresses and sizes are in units of one header (8 bytes); the arena is what sbrk has given.

  datatype Option<+T> = None | Some(value: T)

  datatype Blk = Blk(at: nat, n: nat)

  function End(b: Blk): nat {
    b.at + b.n
  }

  // rover is freep: 0 for `base`, k + 1 for free[k]
  datatype Heap = Heap(free: seq<Blk>, rover: nat, live: map<nat, nat>, arena: seq<Blk>)

  /** In address order, and no two blocks touch. */
  ghost predicate Sorted(free: seq<Blk>) {
    && (forall i | 0 <= i < |free| :: free[i].n > 0)
    && (forall i, j | 0 <= i < j < |free| :: End(free[i]) < free[j].at)
  }

  ghost predicate In(blocks: seq<Blk>, u: nat) {
    exists i :: 0 <= i < |blocks| && blocks[i].at <= u < End(blocks[i])
  }

  ghost predicate InLive(live: map<nat, nat>, u: nat) {
    exists a :: a in live && a <= u < a + live[a]
  }

  /** Each unit sbrk gave is in one free or one live block, and no other unit is. */
  ghost predicate Tiled(h: Heap) {
    && (forall u: nat :: In(h.arena, u) <==> In(h.free, u) || InLive(h.live, u))
    && (forall u: nat :: !(In(h.free, u) && InLive(h.live, u)))
    && (forall a, b | a in h.live && b in h.live && a < b :: a + h.live[a] <= b)
    && (forall a | a in h.live :: h.live[a] > 0)
  }

  ghost predicate Good(h: Heap) {
    Sorted(h.free) && h.rover <= |h.free| && Tiled(h)
  }

  // Freeing ------------------------------------------------------------------------------------

  /** How many free blocks lie below `at`. */
  function Below(free: seq<Blk>, at: nat): (i: nat)
    ensures i <= |free| && (i < |free| ==> free[i].at >= at)
    ensures forall j | 0 <= j < i :: free[j].at < at
  {
    if free == [] || free[0].at >= at then 0 else 1 + Below(free[1..], at)
  }

  predicate JoinsPrev(free: seq<Blk>, b: Blk) {
    var i := Below(free, b.at);
    i > 0 && End(free[i - 1]) == b.at
  }

  predicate JoinsNext(free: seq<Blk>, b: Blk) {
    var i := Below(free, b.at);
    i < |free| && End(b) == free[i].at
  }

  /** b together with the free blocks it touches. */
  function Joined(free: seq<Blk>, b: Blk): Blk {
    var i := Below(free, b.at);
    var up := if JoinsNext(free, b) then Blk(b.at, b.n + free[i].n) else b;
    if JoinsPrev(free, b) then Blk(free[i - 1].at, free[i - 1].n + up.n) else up
  }

  // The free blocks b joins are free[Lo..Hi].
  function Lo(free: seq<Blk>, b: Blk): (i: nat)
    ensures i <= |free|
  {
    if JoinsPrev(free, b) then Below(free, b.at) - 1 else Below(free, b.at)
  }

  function Hi(free: seq<Blk>, b: Blk): (i: nat)
    ensures Lo(free, b) <= i <= |free|
  {
    if JoinsNext(free, b) then Below(free, b.at) + 1 else Below(free, b.at)
  }

  function Insert(free: seq<Blk>, b: Blk): seq<Blk> {
    free[..Lo(free, b)] + [Joined(free, b)] + free[Hi(free, b)..]
  }

  /** Where free leaves freep: at the block before b, which may have swallowed it. */
  function Rover(free: seq<Blk>, b: Blk): nat {
    Below(free, b.at)
  }

  /** b is clear of the free blocks. */
  ghost predicate Clear(free: seq<Blk>, b: Blk) {
    b.n > 0 && forall i | 0 <= i < |free| :: End(free[i]) <= b.at || End(b) <= free[i].at
  }

  lemma SortedReplace(free: seq<Blk>, lo: nat, hi: nat, m: Blk)
    requires Sorted(free) && lo <= hi <= |free| && m.n > 0
    requires lo > 0 ==> End(free[lo - 1]) < m.at
    requires hi < |free| ==> End(m) < free[hi].at
    ensures Sorted(free[..lo] + [m] + free[hi..])
  {
    var r := free[..lo] + [m] + free[hi..];
    forall i, j | 0 <= i < j < |r| ensures End(r[i]) < r[j].at {
      if i > lo {
        assert r[i] == free[i - lo - 1 + hi] && r[j] == free[j - lo - 1 + hi];
      } else if j > lo {
        assert r[j] == free[j - lo - 1 + hi];
        assert hi < |free| && free[hi].at <= r[j].at;
        assert i < lo ==> End(r[i]) <= End(free[lo - 1]);
      }
    }
  }

  lemma {:induction false} InAppend(a: seq<Blk>, b: seq<Blk>, u: nat)
    ensures In(a + b, u) <==> In(a, u) || In(b, u)
  {
    if i :| 0 <= i < |a| && a[i].at <= u < End(a[i]) {
      assert (a + b)[i].at <= u;
    }
    if i :| 0 <= i < |b| && b[i].at <= u < End(b[i]) {
      assert (a + b)[|a| + i].at <= u;
    }
    if i :| 0 <= i < |a + b| && (a + b)[i].at <= u < End((a + b)[i]) {
      assert if i < |a| then a[i].at <= u else b[i - |a|].at <= u;
    }
  }

  lemma InReplace(free: seq<Blk>, lo: nat, hi: nat, m: Blk, u: nat)
    requires lo <= hi <= |free|
    ensures In(free, u) <==> In(free[..lo], u) || In(free[lo..hi], u) || In(free[hi..], u)
    ensures In(free[..lo] + [m] + free[hi..], u) <==>
      In(free[..lo], u) || m.at <= u < End(m) || In(free[hi..], u)
  {
    assert free == free[..lo] + free[lo..hi] + free[hi..];
    InAppend(free[..lo] + free[lo..hi], free[hi..], u);
    InAppend(free[..lo], free[lo..hi], u);
    InAppend(free[..lo] + [m], free[hi..], u);
    InAppend(free[..lo], [m], u);
    assert In([m], u) <==> m.at <= u < End(m) by {
      assert [m][0] == m;
    }
  }

  /** The joined block is b and the blocks it touches, no unit more or less. */
  lemma JoinedUnits(free: seq<Blk>, b: Blk, u: nat)
    requires Sorted(free) && Clear(free, b)
    ensures var m := Joined(free, b);
      m.at <= u < End(m) <==> b.at <= u < End(b) || In(free[Lo(free, b)..Hi(free, b)], u)
  {
    hide Below, Lo, Hi, JoinsPrev, JoinsNext, In;
    JoinedParts(free, b);
    var i := Below(free, b.at);
    var p: seq<Blk> := if JoinsPrev(free, b) then [free[i - 1]] else [];
    var q: seq<Blk> := if JoinsNext(free, b) then [free[i]] else [];
    InAppend(p, q, u);
    InOne(p, u);
    InOne(q, u);
  }

  lemma JoinedParts(free: seq<Blk>, b: Blk)
    ensures var i := Below(free, b.at);
      && (JoinsPrev(free, b) ==> i > 0 && End(free[i - 1]) == b.at)
      && (JoinsNext(free, b) ==> i < |free| && End(b) == free[i].at)
      && free[Lo(free, b)..Hi(free, b)] ==
        (if JoinsPrev(free, b) then [free[i - 1]] else []) + (if JoinsNext(free, b) then [free[i]] else [])
  {
    hide Below;
    MidOf(free, Below(free, b.at), JoinsPrev(free, b), JoinsNext(free, b));
  }

  lemma MidOf(free: seq<Blk>, i: nat, prev: bool, next: bool)
    requires i <= |free| && (prev ==> i > 0) && (next ==> i < |free|)
    ensures free[if prev then i - 1 else i..if next then i + 1 else i] ==
      (if prev then [free[i - 1]] else []) + (if next then [free[i]] else [])
  {
    OneOf(free, i);
    if prev {
      OneOf(free, i - 1);
    }
  }

  lemma OneOf(s: seq<Blk>, i: nat)
    requires i <= |s|
    ensures i < |s| ==> s[i..i + 1] == [s[i]]
    ensures 0 < i < |s| ==> s[i - 1..i + 1] == [s[i - 1]] + [s[i]]
    ensures s[i..i] == []
  {
  }

  lemma InOne(p: seq<Blk>, u: nat)
    requires |p| <= 1
    ensures In(p, u) <==> |p| == 1 && p[0].at <= u < End(p[0])
  {
  }

  lemma {:induction false} InsertKeeps(free: seq<Blk>, b: Blk)
    requires Sorted(free) && Clear(free, b)
    ensures Sorted(Insert(free, b)) && Rover(free, b) <= |Insert(free, b)|
    ensures forall u: nat :: In(Insert(free, b), u) <==> In(free, u) || b.at <= u < End(b)
  {
    SortedReplace(free, Lo(free, b), Hi(free, b), Joined(free, b));
    hide In, Lo, Hi, Joined;
    forall u: nat ensures In(Insert(free, b), u) <==> In(free, u) || b.at <= u < End(b) {
      InReplace(free, Lo(free, b), Hi(free, b), Joined(free, b), u);
      JoinedUnits(free, b, u);
    }
  }

  // Allocating ------------------------------------------------------------------------------------

  /** The first k in [from, end) with room for n units, or end. */
  function Scan(free: seq<Blk>, from: nat, end: nat, n: nat): (k: nat)
    requires from <= end <= |free|
    ensures from <= k <= end && (k < end ==> free[k].n >= n)
    ensures forall j | from <= j < k :: free[j].n < n
    decreases end - from
  {
    if from == end || free[from].n >= n then from else Scan(free, from + 1, end, n)
  }

  /** The block malloc takes: the first with room, from the rover on round the list; |free| for none. */
  function FirstFit(free: seq<Blk>, rover: nat, n: nat): (k: nat)
    requires rover <= |free|
    ensures k <= |free| && (k < |free| ==> free[k].n >= n)
    ensures k == |free| ==> forall j | 0 <= j < |free| :: free[j].n < n
  {
    var k := Scan(free, rover, |free|, n);
    if k < |free| then k
    else
      var j := Scan(free, 0, rover, n);
      if j < rover then j else |free|
  }

  /** The last n units of block k are taken. */
  function Take(free: seq<Blk>, k: nat, n: nat): seq<Blk>
    requires k < |free| && free[k].n >= n
  {
    if free[k].n == n then free[..k] + free[k + 1..] else free[k := Blk(free[k].at, free[k].n - n)]
  }

  lemma {:induction false} TakeKeeps(free: seq<Blk>, k: nat, n: nat)
    requires Sorted(free) && k < |free| && 0 < n <= free[k].n
    ensures Sorted(Take(free, k, n)) && k <= |Take(free, k, n)|
    ensures forall u: nat :: In(Take(free, k, n), u) <==> In(free, u) && !(End(free[k]) - n <= u < End(free[k]))
    ensures forall u: nat | End(free[k]) - n <= u < End(free[k]) :: In(free, u)
  {
    if free[k].n == n {
      assert forall j | k <= j < |free| - 1 :: Take(free, k, n)[j] == free[j + 1];
    }
    forall u: nat ensures In(Take(free, k, n), u) <==> In(free, u) && !(End(free[k]) - n <= u < End(free[k])) {
      TakeUnit(free, k, n, u);
    }
  }

  lemma TakeUnit(free: seq<Blk>, k: nat, n: nat, u: nat)
    requires Sorted(free) && k < |free| && 0 < n <= free[k].n
    ensures In(Take(free, k, n), u) <==> In(free, u) && !(End(free[k]) - n <= u < End(free[k]))
  {
    var lo, mid, hi := free[..k], [free[k]], free[k + 1..];
    assert free == lo + mid + hi;
    InAppend(lo + mid, hi, u);
    InAppend(lo, mid, u);
    InOne(mid, u);
    assert forall i | 0 <= i < |lo| :: lo[i] == free[i];
    assert forall i | 0 <= i < |hi| :: hi[i] == free[k + 1 + i];
    if free[k].n == n {
      InAppend(lo, hi, u);
    } else {
      var rest := [Blk(free[k].at, free[k].n - n)];
      assert Take(free, k, n) == lo + rest + hi;
      InAppend(lo + rest, hi, u);
      InAppend(lo, rest, u);
      InOne(rest, u);
    }
  }

  const NALLOC: nat := 4096

  datatype Step =
    | Malloc(n: nat, more: Option<nat>)  // n units; where sbrk puts new units if it is asked and has them
    | Free(a: nat)

  predicate Fits(h: Heap, n: nat)
    requires h.rover <= |h.free|
  {
    FirstFit(h.free, h.rover, n) < |h.free|
  }

  /** malloc when some block has room. */
  ghost function Alloc(h: Heap, n: nat): Heap
    requires h.rover <= |h.free| && Fits(h, n)
  {
    var k := FirstFit(h.free, h.rover, n);
    Heap(Take(h.free, k, n), k, h.live[End(h.free[k]) - n := n], h.arena)
  }

  /** morecore: new units come to the free list. */
  ghost function Grow(h: Heap, at: nat, n: nat): Heap {
    var b := Blk(at, if n < NALLOC then NALLOC else n);
    Heap(Insert(h.free, b), Rover(h.free, b), h.live, h.arena + [b])
  }

  ghost function Release(h: Heap, a: nat): Heap
    requires a in h.live
  {
    var b := Blk(a, h.live[a]);
    Heap(Insert(h.free, b), Rover(h.free, b), h.live - {a}, h.arena)
  }

  /** Callers ask for at least the header and free only live blocks; sbrk gives units above all it gave
      before. */
  ghost predicate Enabled(h: Heap, step: Step) {
    h.rover <= |h.free| &&
    match step
    case Malloc(n, more) => n > 0 && (more.Some? ==> forall i | 0 <= i < |h.arena| :: End(h.arena[i]) <= more.value)
    case Free(a) => a in h.live
  }

  lemma {:induction false} AllocKeeps(h: Heap, n: nat)
    requires Good(h) && n > 0 && Fits(h, n)
    ensures Good(Alloc(h, n))
    ensures var a := End(h.free[FirstFit(h.free, h.rover, n)]) - n;
      forall u: nat | a <= u < a + n :: In(h.free, u) && !InLive(h.live, u)
  {
    var k, g := FirstFit(h.free, h.rover, n), Alloc(h, n);
    var a := End(h.free[k]) - n;
    TakeKeeps(h.free, k, n);
    hide In, Take, FirstFit;
    forall u: nat ensures InLive(g.live, u) <==> InLive(h.live, u) || a <= u < a + n {
      if x :| x in h.live && x <= u < x + h.live[x] {
        AllocFresh(h, a, n);
        assert x in g.live && g.live[x] == h.live[x];
      }
      if a <= u < a + n {
        assert a in g.live;
      }
    }
    AllocFresh(h, a, n);
  }

  /** Free units are clear of the live blocks. */
  lemma AllocFresh(h: Heap, a: nat, n: nat)
    requires Tiled(h) && n > 0 && forall u | a <= u < a + n :: In(h.free, u)
    ensures forall x | x in h.live :: x + h.live[x] <= a || a + n <= x
  {
    forall x | x in h.live ensures x + h.live[x] <= a || a + n <= x {
      var u := if x < a then a else x;
      assert x <= u < x + h.live[x] ==> InLive(h.live, u);
      assert a <= u < a + n ==> In(h.free, u);
    }
  }

  lemma {:induction false} ReleaseKeeps(h: Heap, a: nat)
    requires Good(h) && a in h.live
    ensures Clear(h.free, Blk(a, h.live[a])) && Good(Release(h, a))
    ensures Release(h, a).live == h.live - {a} && Release(h, a).arena == h.arena
    ensures forall u: nat :: In(Release(h, a).free, u) <==> In(h.free, u) || a <= u < a + h.live[a]
  {
    var b, g := Blk(a, h.live[a]), Release(h, a);
    forall i | 0 <= i < |h.free| ensures End(h.free[i]) <= b.at || End(b) <= h.free[i].at {
      var u := if h.free[i].at < a then a else h.free[i].at;
      assert a <= u < End(b) ==> InLive(h.live, u);
      assert h.free[i].at <= u < End(h.free[i]) ==> In(h.free, u);
    }
    InsertKeeps(h.free, b);
    hide In, Insert;
    forall u: nat ensures InLive(g.live, u) <==> InLive(h.live, u) && !(a <= u < End(b)) {
      if x :| x in h.live && x <= u < x + h.live[x] && !(a <= u < End(b)) {
        assert x in g.live && g.live[x] == h.live[x];
      }
    }
  }

  lemma {:induction false} GrowKeeps(h: Heap, at: nat, n: nat)
    requires Good(h) && forall i | 0 <= i < |h.arena| :: End(h.arena[i]) <= at
    ensures Clear(h.free, Blk(at, if n < NALLOC then NALLOC else n))
    ensures Good(Grow(h, at, n)) && Fits(Grow(h, at, n), n)
  {
    var b, g := Blk(at, if n < NALLOC then NALLOC else n), Grow(h, at, n);
    forall u: nat | In(h.arena, u) ensures u < at {
    }
    forall i | 0 <= i < |h.free| ensures End(h.free[i]) <= at {
      assert In(h.free, End(h.free[i]) - 1);
    }
    InsertKeeps(h.free, b);
    assert g.free[Lo(h.free, b)].n >= b.n;
    forall u: nat ensures In(g.arena, u) <==> In(h.arena, u) || b.at <= u < End(b) {
      InAppend(h.arena, [b], u);
      InOne([b], u);
    }
    hide In, Insert, FirstFit, InLive;
    assert Tiled(g);
  }

  /** malloc: the heap it leaves, and the header of the block it gives. */
  ghost function DoMalloc(h: Heap, n: nat, more: Option<nat>): (Heap, Option<nat>)
    requires Enabled(h, Malloc(n, more))
  {
    if Fits(h, n) then (Alloc(h, n), Some(End(h.free[FirstFit(h.free, h.rover, n)]) - n))
    else if more.None? then (h, None)
    else
      var g := Grow(h, more.value, n);
      if g.rover > |g.free| || !Fits(g, n) then (g, None)
      else (Alloc(g, n), Some(End(g.free[FirstFit(g.free, g.rover, n)]) - n))
  }

  ghost function Next(h: Heap, step: Step): (h': Heap)
    requires Enabled(h, step)
  {
    match step
    case Malloc(n, more) => DoMalloc(h, n, more).0
    case Free(a) => Release(h, a)
  }

  lemma {:induction false} StepKeeps(h: Heap, step: Step)
    requires Good(h) && Enabled(h, step)
    ensures Good(Next(h, step))
  {
    match step
    case Malloc(n, more) =>
      if Fits(h, n) {
        AllocKeeps(h, n);
      } else if more.Some? {
        GrowKeeps(h, more.value, n);
        AllocKeeps(Grow(h, more.value, n), n);
      }
    case Free(a) => ReleaseKeeps(h, a);
  }

  /** What malloc gives is new, is as long as asked for and leaves the other live blocks as they were;
      it gives nothing only when no free block has room and sbrk has no more. */
  lemma {:induction false} MallocGives(h: Heap, n: nat, more: Option<nat>)
    requires Good(h) && Enabled(h, Malloc(n, more))
    ensures var (g, r) := DoMalloc(h, n, more);
      && (r.None? <==> more.None? && forall k | 0 <= k < |h.free| :: h.free[k].n < n)
      && (r.None? ==> g == h)
      && (r.Some? ==> r.value !in h.live && g.live == h.live[r.value := n])
      && (r.Some? ==> forall u | r.value <= u < r.value + n :: !InLive(h.live, u))
  {
    hide Take, Insert, In, InLive, Sorted, Tiled;
    if Fits(h, n) {
      AllocKeeps(h, n);
      Given(h, n);
    } else if more.Some? {
      GrowKeeps(h, more.value, n);
      AllocKeeps(Grow(h, more.value, n), n);
      Given(Grow(h, more.value, n), n);
    }
  }

  lemma Given(h: Heap, n: nat)
    requires Good(h) && n > 0 && Fits(h, n)
    ensures End(h.free[FirstFit(h.free, h.rover, n)]) - n !in h.live
    ensures !forall k | 0 <= k < |h.free| :: h.free[k].n < n
  {
    var k := FirstFit(h.free, h.rover, n);
    var a := End(h.free[k]) - n;
    assert In(h.free, a);
    assert h.free[k].n >= n;
    assert a in h.live ==> InLive(h.live, a);
  }

  ghost predicate Legal(h: Heap, run: seq<Step>)
    decreases |run|
  {
    run == [] || (Enabled(h, run[0]) && Legal(Next(h, run[0]), run[1..]))
  }

  ghost function Exec(h: Heap, run: seq<Step>): Heap
    requires Legal(h, run)
    decreases |run|
  {
    if run == [] then h else Exec(Next(h, run[0]), run[1..])
  }

  lemma {:induction false} RunKeeps(h: Heap, run: seq<Step>)
    requires Good(h) && Legal(h, run)
    ensures Good(Exec(h, run))
    decreases |run|
  {
    if run != [] {
      StepKeeps(h, run[0]);
      RunKeeps(Next(h, run[0]), run[1..]);
    }
  }

  const EMPTY: Heap := Heap([], 0, map[], [])

  /** In every run of malloc and free the free list is in order with no two blocks touching, and free
      and live blocks share out all units sbrk has given, each to one block. */
  lemma {:induction false} HeapRuns(run: seq<Step>)
    requires Legal(EMPTY, run)
    ensures var h := Exec(EMPTY, run);
      && (forall i, j | 0 <= i < j < |h.free| :: End(h.free[i]) < h.free[j].at)
      && (forall u: nat :: In(h.arena, u) <==> In(h.free, u) || InLive(h.live, u))
      && (forall u: nat :: !(In(h.free, u) && InLive(h.live, u)))
      && (forall a, b | a in h.live && b in h.live && a < b :: a + h.live[a] <= b)
  {
    RunKeeps(EMPTY, run);
  }
}
