/**
 * Growing a process (growproc in proc.c) and every run of the address-space operations.
 */
module VmRuns {
  import opened Vm
  import opened VmOps
  import opened VmSpaces
  import opened VmFork

  /** The user half of space d is sz bytes: every page they touch is mapped and no other. */
  ghost predicate Image(m: Mem, d: nat, sz: nat) {
    AllPresent(m, d, 0, Up(sz)) && AllAbsent(m, d, Up(sz), USERPAGES)
  }

  function Wrap(x: int): nat { x % 0x1_0000_0000 }

  datatype Growth = Growth(mem: Mem, result: int, sz: nat)

  /** growproc: a zero from allocuvm or deallocuvm means failure and leaves the size alone. */
  function GrowProc(m: Mem, d: nat, sz: nat, n: int): (r: Growth)
    requires d in m.dirs && Closed(m) && sz < KERNBASE
    ensures Closed(r.mem) && OneDir(m, r.mem, d)
  {
    if n > 0 then
      var a := AllocUvm(m, d, sz, Wrap(sz + n));
      if a.1 == 0 then Growth(a.0, -1, sz) else Growth(a.0, 0, a.1)
    else if n < 0 then
      var a := DeallocUvm(m, d, sz, Wrap(sz + n));
      if a.1 == 0 then Growth(a.0, -1, sz) else Growth(a.0, 0, a.1)
    else Growth(m, 0, sz)
  }

  lemma ImageGrown(m: Mem, n: Mem, d: nat, sz: nat, newsz: nat)
    requires Image(m, d, sz) && sz <= newsz < KERNBASE
    requires Around(m, n, d, Up(sz), Up(newsz)) && AllNew(m, n, d, Up(sz), Up(newsz))
    ensures Image(n, d, newsz)
  {
    var p, q := Up(sz), Up(newsz);
    forall r | 0 <= r < q ensures Entry(n, d, r).Pte? {
      if r < p {
        AroundPage(m, n, d, p, q, r);
        assert Entry(m, d, r).Pte?;
      } else {
        assert NewPage(m, n, d, r);
      }
    }
    forall r | q <= r < USERPAGES ensures Entry(n, d, r) == Absent {
      AroundPage(m, n, d, p, q, r);
    }
  }

  lemma ImageShrunk(m: Mem, n: Mem, d: nat, sz: nat, newsz: nat)
    requires Image(m, d, sz) && newsz <= sz < KERNBASE
    requires Around(m, n, d, Up(newsz), Up(sz)) && AllAbsent(n, d, Up(newsz), Up(sz))
    ensures Image(n, d, newsz)
  {
    var p, q := Up(newsz), Up(sz);
    forall r | 0 <= r < p ensures Entry(n, d, r).Pte? {
      AroundPage(m, n, d, p, q, r);
      assert Entry(m, d, r).Pte?;
    }
    forall r | p <= r < USERPAGES ensures Entry(n, d, r) == Absent {
      if r >= q {
        AroundPage(m, n, d, p, q, r);
        assert Entry(m, d, r) == Absent;
      }
    }
  }

  lemma ImageSame(m: Mem, n: Mem, d: nat, sz: nat)
    requires SpaceSame(m, n, d)
    ensures Image(n, d, sz) <==> Image(m, d, sz)
  {
    forall r | 0 <= r < PAGES ensures Entry(n, d, r) == Entry(m, d, r) {
      assert SameAt(m, n, d, Pdx(r), Ptx(r));
    }
  }

  /** One space has one size in pages. */
  lemma NotEmpty(m: Mem, d: nat, sz: nat)
    requires Image(m, d, 0) && 0 < sz < KERNBASE
    ensures !Image(m, d, sz)
  {
    assert Entry(m, d, 0) == Absent;
  }

  ghost predicate SpaceSame(m: Mem, n: Mem, d: nat) {
    forall x, y :: SameAt(m, n, d, x, y)
  }

  /** Outside the user half of space d nothing changes. */
  ghost predicate OnlyUser(m: Mem, n: Mem, d: nat) {
    Around(m, n, d, 0, USERPAGES)
  }

  lemma {:induction false} ShrinkIs(m: Mem, d: nat, sz: nat, newsz: nat, all: set<nat>)
    requires Good(m, all) && d in m.dirs && Image(m, d, sz) && newsz < sz < KERNBASE
    ensures var n := DeallocUvm(m, d, sz, newsz).0;
      Good(n, all) && n.held == m.held && OnlyUser(m, n, d) && Image(n, d, newsz)
  {
    hide Good, Image, Around, AllAbsent, DeallocPages;
    GoodIs(m, all);
    DeallocPagesKeeps(m, d, Up(newsz), Up(sz), all);
    var n := DeallocPages(m, d, Up(newsz), Up(sz));
    AroundWider(m, n, d, Up(newsz), Up(sz), 0, USERPAGES);
    ImageShrunk(m, n, d, sz, newsz);
  }

  lemma {:induction false} ExtendIs(m: Mem, d: nat, sz: nat, newsz: nat, all: set<nat>)
    requires Good(m, all) && d in m.dirs && Image(m, d, sz) && sz < KERNBASE
    ensures var r := AllocUvm(m, d, sz, newsz);
      && Good(r.0, all) && r.0.held == m.held && OnlyUser(m, r.0, d)
      && (if r.1 == 0 then Image(r.0, d, sz) else r.1 < KERNBASE && Image(r.0, d, r.1))
      && (r.1 == newsz || r.1 == 0 || (r.1 == sz && newsz < sz))
  {
    hide Good, Image, Around, AllAbsent, AllNew, SameMaps, SpaceSame, AllocUvm, AllocPages, Cost;
    GoodIs(m, all);
    ImageTop(m, d, sz);
    AllocUvmIs(m, d, sz, newsz, all);
    var r := AllocUvm(m, d, sz, newsz);
    AroundSelf(m, d, 0, USERPAGES);
    if sz <= newsz < KERNBASE {
      if AllocPages(m, d, Up(sz), Up(newsz)).1 == Done {
        ImageGrown(m, r.0, d, sz, newsz);
        AroundWider(m, r.0, d, Up(sz), Up(newsz), 0, USERPAGES);
        assert newsz == 0 ==> sz == 0;
      } else {
        MapsSpace(m, r.0, d);
        ImageSame(m, r.0, d, sz);
        SameAround(m, r.0, d, 0, USERPAGES);
      }
    }
  }

  lemma MapsSpace(m: Mem, n: Mem, d: nat)
    requires SameMaps(m, n)
    ensures SpaceSame(m, n, d)
  {
  }

  lemma ImageTop(m: Mem, d: nat, sz: nat)
    requires Image(m, d, sz)
    ensures AllAbsent(m, d, Up(sz), USERPAGES)
  {
  }

  /**
   * growproc keeps the process's size true to its page table except when it shrinks it to nothing: then deallocuvm's
   * 0, the new size, is taken for a failure, and the size stays while the pages are gone. A shrink below nothing
   * wraps, changes nothing and is reported as a success.
   */
  lemma {:induction false} GrowKeepsIff(m: Mem, d: nat, sz: nat, n: int, all: set<nat>)
    requires Good(m, all) && d in m.dirs && Image(m, d, sz) && sz < KERNBASE && -0x8000_0000 <= n < 0x8000_0000
    ensures var g := GrowProc(m, d, sz, n);
      Good(g.mem, all) && g.mem.held == m.held && OnlyUser(m, g.mem, d) && g.sz < KERNBASE
    ensures Image(GrowProc(m, d, sz, n).mem, d, GrowProc(m, d, sz, n).sz) <==> !(n < 0 && sz + n == 0)
    ensures var g := GrowProc(m, d, sz, n); g.result == 0 ==> (g.sz == sz + n <==> sz + n >= 0)
    ensures sz + n < 0 ==> GrowProc(m, d, sz, n) == Growth(m, if sz == 0 then -1 else 0, sz)
    ensures var g := GrowProc(m, d, sz, n); g.result != 0 ==> g.result == -1 && g.sz == sz
  {
    hide Good, Image, Around, AllocUvm, DeallocPages;
    GoodIs(m, all);
    AroundSelf(m, d, 0, USERPAGES);
    var w := Wrap(sz + n);
    if n > 0 {
      ExtendIs(m, d, sz, w, all);
    } else if n < 0 && w < sz {
      ShrinkIs(m, d, sz, w, all);
      if w == 0 {
        NotEmpty(DeallocUvm(m, d, sz, 0).0, d, sz);
      }
    }
  }

  /**
   * growproc reports a success exactly when, to grow, the new size is a user's and there are frames for the pages and
   * the missing page tables; or, to shrink, the new size is not 0, and of an empty process never.
   */
  lemma {:induction false} GrowsIff(m: Mem, d: nat, sz: nat, n: int, all: set<nat>)
    requires Good(m, all) && d in m.dirs && Image(m, d, sz) && sz < KERNBASE && -0x8000_0000 <= n < 0x8000_0000
    ensures GrowProc(m, d, sz, n).result == 0 <==>
      if n > 0 then
        sz + n < KERNBASE && Up(sz + n) - Up(sz) + |NoTables(m.dirs[d], Up(sz), Up(sz + n))| <= |m.free|
      else n == 0 || (sz > 0 && sz + n != 0)
    ensures GrowProc(m, d, sz, n).result == 0 && n > 0 ==>
      AllNew(m, GrowProc(m, d, sz, n).mem, d, Up(sz), Up(sz + n))
  {
    hide Good, Image, AllAbsent, AllNew, SameMaps, AllocPages, DeallocPages, Cost, NoTables, Around;
    GoodIs(m, all);
    ImageTop(m, d, sz);
    if n > 0 {
      AllocUvmIs(m, d, sz, Wrap(sz + n), all);
      if sz + n < KERNBASE {
        DoneIff(m, d, Up(sz), Up(sz + n));
        CostIs(m.dirs[d], Up(sz), Up(sz + n));
      }
    }
  }

  // Runs ------------------------------------------------------------------------------------------

  /** The memory, and the size of each process or image under construction. */
  datatype Sys = Sys(mem: Mem, sizes: map<nat, nat>)

  /** Load is exec's use of allocuvm; Kalloc and Kfree are kernel stacks, pipes and other users of frames. */
  datatype Step =
    | Setup
    | Load(d: nat, newsz: nat)
    | Grow(d: nat, n: int)
    | Fork(d: nat)
    | Exit(d: nat)
    | Kalloc
    | Kfree(f: nat)

  /** Every space is as big as its process believes, and has the kernel's mappings. */
  ghost predicate Sized(m: Mem, sizes: map<nat, nat>, data: nat) {
    && sizes.Keys == m.dirs.Keys
    && forall d | d in sizes :: sizes[d] < KERNBASE && Image(m, d, sizes[d]) && KernelHalf(m, d, data)
  }

  ghost predicate Inv(s: Sys, all: set<nat>, data: nat) {
    Good(s.mem, all) && Sized(s.mem, s.sizes, data)
  }

  predicate Enabled(s: Sys, step: Step) {
    match step
    case Setup => true
    case Load(d, newsz) => d in s.sizes
    case Grow(d, n) => d in s.sizes && -0x8000_0000 <= n < 0x8000_0000
    case Fork(d) => d in s.sizes
    case Exit(d) => d in s.sizes
    case Kalloc => true
    case Kfree(f) => f in s.mem.held
  }

  ghost predicate Ready(s: Sys) {
    Closed(s.mem) && forall d | d in s.sizes :: d in s.mem.dirs && s.sizes[d] < KERNBASE
  }

  function Next(s: Sys, step: Step, data: nat): Sys
    requires Ready(s) && Enabled(s, step) && 0x100 < data < 0xE000
  {
    var m := s.mem;
    match step
    case Setup =>
      var r := SetupKvm(m, data);
      Sys(r.0, if r.1.None? then s.sizes else s.sizes[r.1.value := 0])
    case Load(d, newsz) =>
      var r := AllocUvm(m, d, s.sizes[d], newsz);
      Sys(r.0, if r.1 == 0 then s.sizes else s.sizes[d := r.1])
    case Grow(d, n) =>
      var g := GrowProc(m, d, s.sizes[d], n);
      Sys(g.mem, s.sizes[d := g.sz])
    case Fork(d) =>
      var r := CopyUvm(m, d, s.sizes[d], data);
      Sys(r.0, if r.1.None? then s.sizes else s.sizes[r.1.value := s.sizes[d]])
    case Exit(d) => Sys(FreeVm(m, d), s.sizes - {d})
    case Kalloc => if m.free == [] then s else Sys(Take(m), s.sizes)
    case Kfree(f) => Sys(Release(m, f), s.sizes)
  }

  /** A process shrinks itself to nothing. */
  predicate Empties(s: Sys, step: Step)
    requires Enabled(s, step)
  {
    step.Grow? && step.n < 0 && s.sizes[step.d] + step.n == 0
  }

  lemma KernelSame(m: Mem, n: Mem, d: nat, data: nat)
    requires SpaceSame(m, n, d) && KernelHalf(m, d, data)
    ensures KernelHalf(n, d, data)
  {
    forall r | USERPAGES <= r < PAGES ensures Entry(n, d, r) == Entry(m, d, r) {
      assert SameAt(m, n, d, Pdx(r), Ptx(r));
    }
  }

  lemma KernelUser(m: Mem, n: Mem, d: nat, data: nat)
    requires OnlyUser(m, n, d) && KernelHalf(m, d, data)
    ensures KernelHalf(n, d, data)
  {
    forall r | USERPAGES <= r < PAGES ensures Entry(n, d, r) == Entry(m, d, r) {
      AroundPage(m, n, d, 0, USERPAGES, r);
    }
  }

  lemma OneSized(m: Mem, n: Mem, d: nat, sz: nat, data: nat)
    requires SpaceSame(m, n, d) && Image(m, d, sz) && KernelHalf(m, d, data)
    ensures Image(n, d, sz) && KernelHalf(n, d, data)
  {
    ImageSame(m, n, d, sz);
    KernelSame(m, n, d, data);
  }

  /** Where at most space d changes, only d needs looking at. */
  lemma SizedFrom(m: Mem, n: Mem, was: map<nat, nat>, now: map<nat, nat>, d: nat, data: nat)
    requires Sized(m, was, data) && OthersSame(m, n, d) && now.Keys == n.dirs.Keys
    requires forall e | e in now && e != d :: e in was && now[e] == was[e]
    requires d in now ==> now[d] < KERNBASE && Image(n, d, now[d]) && KernelHalf(n, d, data)
    ensures Sized(n, now, data)
  {
    hide Image, KernelHalf;
    forall e | e in now ensures now[e] < KERNBASE && Image(n, e, now[e]) && KernelHalf(n, e, data) {
      if e != d {
        OneOther(m, n, d, e);
        OneSized(m, n, e, now[e], data);
      }
    }
  }

  lemma OneOther(m: Mem, n: Mem, d: nat, e: nat)
    requires OthersSame(m, n, d) && e != d
    ensures SpaceSame(m, n, e)
  {
  }

  lemma SizedSame(m: Mem, n: Mem, sizes: map<nat, nat>, data: nat)
    requires Sized(m, sizes, data) && SameMaps(m, n) && n.dirs.Keys == m.dirs.Keys
    ensures Sized(n, sizes, data)
  {
    hide Image, KernelHalf, SameMaps;
    forall e | e in sizes ensures sizes[e] < KERNBASE && Image(n, e, sizes[e]) && KernelHalf(n, e, data) {
      MapsSpace(m, n, e);
      OneSized(m, n, e, sizes[e], data);
    }
  }

  lemma UserOthers(m: Mem, n: Mem, d: nat)
    requires OnlyUser(m, n, d)
    ensures OthersSame(m, n, d)
  {
  }

  lemma SizedIs(m: Mem, sizes: map<nat, nat>, d: nat, data: nat)
    requires Sized(m, sizes, data) && d in sizes
    ensures d in m.dirs && sizes[d] < KERNBASE && Image(m, d, sizes[d])
    ensures KernelHalf(m, d, data) && AllPresent(m, d, 0, Up(sizes[d]))
  {
  }

  lemma InvReady(s: Sys, all: set<nat>, data: nat)
    requires Inv(s, all, data)
    ensures Ready(s)
  {
  }

  lemma {:induction false} SetupKeeps(s: Sys, all: set<nat>, data: nat)
    requires Inv(s, all, data) && Ready(s) && 0x100 < data < 0xE000
    ensures Inv(Next(s, Setup, data), all, data)
  {
    hide Good, Sized, KernelHalf, Image, SetupKvm, SameMaps, OthersSame;
    SetupKvmIs(s.mem, data, all);
    var r := SetupKvm(s.mem, data);
    if r.1.None? {
      SizedSame(s.mem, r.0, s.sizes, data);
    } else {
      var d := r.1.value;
      EmptyImage(r.0, d);
      SizedKeys(s.mem, s.sizes, data);
      SizedFrom(s.mem, r.0, s.sizes, s.sizes[d := 0], d, data);
    }
  }

  lemma SizedKeys(m: Mem, sizes: map<nat, nat>, data: nat)
    requires Sized(m, sizes, data)
    ensures sizes.Keys == m.dirs.Keys
  {
  }

  lemma EmptyImage(m: Mem, d: nat)
    requires AllAbsent(m, d, 0, USERPAGES)
    ensures Image(m, d, 0)
  {
  }

  lemma CopiedImage(m: Mem, n: Mem, d: nat, e: nat, sz: nat)
    requires AllCopied(m, n, d, e, 0, Up(sz)) && AllAbsent(n, e, Up(sz), USERPAGES) && sz < KERNBASE
    ensures Image(n, e, sz)
  {
    forall r | 0 <= r < Up(sz) ensures Entry(n, e, r).Pte? {
      assert GotPage(m, n, e, r, Bytes(m, Entry(m, d, r).frame), Entry(m, d, r).flags);
    }
  }

  lemma {:induction false} ForkKeeps(s: Sys, d: nat, all: set<nat>, data: nat)
    requires Inv(s, all, data) && Ready(s) && 0x100 < data < 0xE000 && d in s.sizes
    ensures Inv(Next(s, Fork(d), data), all, data)
  {
    hide Good, Sized, KernelHalf, Image, CopyUvm, SameMaps, OthersSame, AllPresent, AllCopied, AllAbsent;
    SizedIs(s.mem, s.sizes, d, data);
    var sz := s.sizes[d];
    CopyUvmIs(s.mem, d, sz, data, all);
    var r := CopyUvm(s.mem, d, sz, data);
    if r.1.None? {
      SizedSame(s.mem, r.0, s.sizes, data);
    } else {
      var e := r.1.value;
      CopiedImage(s.mem, r.0, d, e, sz);
      SizedKeys(s.mem, s.sizes, data);
      SizedFrom(s.mem, r.0, s.sizes, s.sizes[e := sz], e, data);
    }
  }

  lemma {:induction false} SizesKeep(s: Sys, step: Step, all: set<nat>, data: nat)
    requires Inv(s, all, data) && Ready(s) && 0x100 < data < 0xE000 && Enabled(s, step) && (step.Load? || step.Grow?)
    ensures Good(Next(s, step, data).mem, all) && (Inv(Next(s, step, data), all, data) <==> !Empties(s, step))
  {
    hide Good, Sized, KernelHalf, Image, AllocUvm, GrowProc, OthersSame, Around;
    var d, sz := step.d, s.sizes[step.d];
    SizedIs(s.mem, s.sizes, d, data);
    SizedKeys(s.mem, s.sizes, data);
    if step.Load? {
      ExtendIs(s.mem, d, sz, step.newsz, all);
    } else {
      GrowKeepsIff(s.mem, d, sz, step.n, all);
    }
    var n := Next(s, step, data);
    UserOthers(s.mem, n.mem, d);
    UserKeys(s.mem, n.mem, d);
    KernelUser(s.mem, n.mem, d, data);
    assert n.sizes.Keys == s.sizes.Keys;
    if Empties(s, step) {
      if Sized(n.mem, n.sizes, data) {
        SizedIs(n.mem, n.sizes, d, data);
        assert false;
      }
    } else {
      SizedFrom(s.mem, n.mem, s.sizes, n.sizes, d, data);
    }
  }

  lemma UserKeys(m: Mem, n: Mem, d: nat)
    requires OnlyUser(m, n, d)
    ensures m.dirs.Keys == n.dirs.Keys
  {
  }

  lemma {:induction false} FramesKeep(s: Sys, step: Step, all: set<nat>, data: nat)
    requires Inv(s, all, data) && Ready(s) && 0x100 < data < 0xE000
    requires Enabled(s, step) && (step.Exit? || step.Kalloc? || step.Kfree?)
    ensures Inv(Next(s, step, data), all, data)
  {
    hide Good, Sized, KernelHalf, Image, FreeVm, OthersSame, SameMaps;
    SizedKeys(s.mem, s.sizes, data);
    if step.Exit? {
      FreeVmIs(s.mem, step.d, all);
      SizedFrom(s.mem, FreeVm(s.mem, step.d), s.sizes, s.sizes - {step.d}, step.d, data);
    } else if step.Kfree? {
      ReleaseKeeps(s.mem, step.f, all);
      SizedSame(s.mem, Release(s.mem, step.f), s.sizes, data);
    } else if s.mem.free != [] {
      TakeKeeps(s.mem, all);
      SizedSame(s.mem, Take(s.mem), s.sizes, data);
    }
  }

  /** A step keeps everything, and one that fails to is a process emptying itself. */
  lemma {:induction false} StepKeepsIff(s: Sys, step: Step, all: set<nat>, data: nat)
    requires Inv(s, all, data) && Ready(s) && Enabled(s, step) && 0x100 < data < 0xE000
    ensures Good(Next(s, step, data).mem, all) && (Inv(Next(s, step, data), all, data) <==> !Empties(s, step))
  {
    hide Good, Sized, Next;
    if step.Setup? {
      SetupKeeps(s, all, data);
    } else if step.Fork? {
      ForkKeeps(s, step.d, all, data);
    } else if step.Load? || step.Grow? {
      SizesKeep(s, step, all, data);
    } else {
      FramesKeep(s, step, all, data);
    }
  }

  ghost predicate Taken(s: Sys, step: Step, t: Sys, data: nat)
    requires 0x100 < data < 0xE000
  {
    Ready(s) && Enabled(s, step) && t == Next(s, step, data)
  }

  ghost predicate Run(ss: seq<Sys>, steps: seq<Step>, data: nat)
    requires 0x100 < data < 0xE000
  {
    |ss| == |steps| + 1 && forall k | 0 <= k < |steps| :: Taken(ss[k], steps[k], ss[k + 1], data)
  }

  /** What kinit leaves: every frame on the free list, once, and no address space. */
  ghost predicate Booted(s: Sys, all: set<nat>) {
    && s.sizes == map[] && s.mem.dirs == map[] && s.mem.held == {} && NoDup(s.mem.free)
    && forall f: nat :: f in all <==> f in s.mem.free
  }

  lemma BootedInv(s: Sys, all: set<nat>, data: nat)
    requires Booted(s, all)
    ensures Inv(s, all, data)
  {
    forall f: nat ensures f in all <==> Owned(s.mem, f) {
      assert f in s.mem.free <==> Owns(s.mem, Free, f);
    }
  }

  /**
   * From boot on, for any processes that set up, load, grow, fork and leave address spaces in any order, each frame
   * has one owner, every space maps just the pages of its size, and all share the kernel's mappings, as long as no
   * process shrinks itself to nothing.
   */
  lemma {:induction false} FramesConserved(ss: seq<Sys>, steps: seq<Step>, k: nat, all: set<nat>, data: nat)
    requires 0x100 < data < 0xE000 && Run(ss, steps, data) && Booted(ss[0], all) && k <= |steps|
    requires forall i | 0 <= i < k :: Enabled(ss[i], steps[i]) && !Empties(ss[i], steps[i])
    ensures Inv(ss[k], all, data)
  {
    hide Inv, Next, Booted;
    if k == 0 {
      BootedInv(ss[0], all, data);
    } else {
      FramesConserved(ss, steps, k - 1, all, data);
      assert Taken(ss[k - 1], steps[k - 1], ss[k], data);
      StepKeepsIff(ss[k - 1], steps[k - 1], all, data);
    }
  }

  // Runs in which a process may empty itself -----------------------------------------------------

  /** No space has pages beyond the size its process believes in. */
  ghost predicate Bounded(m: Mem, sizes: map<nat, nat>, data: nat) {
    && sizes.Keys == m.dirs.Keys
    && forall d | d in sizes :: SpaceOk(m, d, sizes[d], data)
  }

  ghost predicate SpaceOk(m: Mem, d: nat, sz: nat, data: nat) {
    sz < KERNBASE && AllAbsent(m, d, Up(sz), USERPAGES) && KernelHalf(m, d, data)
  }

  /** The panic "copyuvm: page not present". */
  ghost predicate Panics(s: Sys, step: Step)
    requires Enabled(s, step)
  {
    step.Fork? && !AllPresent(s.mem, step.d, 0, Up(s.sizes[step.d]))
  }

  lemma AbsentSame(m: Mem, n: Mem, d: nat, p: nat)
    requires SpaceSame(m, n, d) && AllAbsent(m, d, p, USERPAGES)
    ensures AllAbsent(n, d, p, USERPAGES)
  {
    forall r | p <= r < USERPAGES ensures Entry(n, d, r) == Absent {
      assert Entry(m, d, r) == Absent && SameAt(m, n, d, Pdx(r), Ptx(r));
    }
  }

  lemma OkSame(m: Mem, n: Mem, d: nat, sz: nat, data: nat)
    requires SpaceSame(m, n, d) && SpaceOk(m, d, sz, data)
    ensures SpaceOk(n, d, sz, data)
  {
    AbsentSame(m, n, d, Up(sz));
    KernelSame(m, n, d, data);
  }

  lemma BoundedFrom(m: Mem, n: Mem, was: map<nat, nat>, now: map<nat, nat>, d: nat, data: nat)
    requires Bounded(m, was, data) && OthersSame(m, n, d) && now.Keys == n.dirs.Keys
    requires forall e | e in now && e != d :: e in was && now[e] == was[e]
    requires d in now ==> SpaceOk(n, d, now[d], data)
    ensures Bounded(n, now, data)
  {
    hide SpaceOk;
    forall e | e in now ensures SpaceOk(n, e, now[e], data) {
      if e != d {
        OneOther(m, n, d, e);
        OkSame(m, n, e, now[e], data);
      }
    }
  }

  lemma BoundedSame(m: Mem, n: Mem, sizes: map<nat, nat>, data: nat)
    requires Bounded(m, sizes, data) && SameMaps(m, n) && n.dirs.Keys == m.dirs.Keys
    ensures Bounded(n, sizes, data)
  {
    hide SpaceOk, SameMaps;
    forall e | e in sizes ensures SpaceOk(n, e, sizes[e], data) {
      MapsSpace(m, n, e);
      OkSame(m, n, e, sizes[e], data);
    }
  }

  lemma BoundedIs(m: Mem, sizes: map<nat, nat>, d: nat, data: nat)
    requires Bounded(m, sizes, data) && d in sizes
    ensures sizes.Keys == m.dirs.Keys && d in m.dirs && SpaceOk(m, d, sizes[d], data)
    ensures sizes[d] < KERNBASE && AllAbsent(m, d, Up(sizes[d]), USERPAGES) && KernelHalf(m, d, data)
  {
  }

  /** Pages beyond a range stay absent, and with the range those from its start on. */
  lemma AbsentBeyond(m: Mem, n: Mem, d: nat, p: nat, q: nat, r: nat)
    requires Around(m, n, d, p, q) && AllAbsent(m, d, r, USERPAGES) && r <= q <= USERPAGES
    ensures AllAbsent(n, d, q, USERPAGES)
    ensures AllAbsent(n, d, p, q) ==> AllAbsent(n, d, p, USERPAGES)
  {
    forall x | q <= x < USERPAGES ensures Entry(n, d, x) == Absent {
      AroundPage(m, n, d, p, q, x);
    }
  }

  lemma {:induction false} GrowBounds(m: Mem, d: nat, sz: nat, n: int, all: set<nat>)
    requires Good(m, all) && d in m.dirs && AllAbsent(m, d, Up(sz), USERPAGES) && sz < KERNBASE
    requires -0x8000_0000 <= n < 0x8000_0000
    ensures var g := GrowProc(m, d, sz, n);
      && Good(g.mem, all) && g.mem.held == m.held && OnlyUser(m, g.mem, d)
      && g.sz < KERNBASE && AllAbsent(g.mem, d, Up(g.sz), USERPAGES)
  {
    hide Good, Around, AllAbsent, AllocUvm, DeallocPages;
    GoodIs(m, all);
    AroundSelf(m, d, 0, USERPAGES);
    var w := Wrap(sz + n);
    if n > 0 {
      LoadBounds(m, d, sz, w, all);
    } else if n < 0 && w < sz {
      DeallocPagesKeeps(m, d, Up(w), Up(sz), all);
      var k := DeallocPages(m, d, Up(w), Up(sz));
      AbsentBeyond(m, k, d, Up(w), Up(sz), Up(sz));
      AroundWider(m, k, d, Up(w), Up(sz), 0, USERPAGES);
    }
  }

  lemma {:induction false} LoadBounds(m: Mem, d: nat, sz: nat, newsz: nat, all: set<nat>)
    requires Good(m, all) && d in m.dirs && AllAbsent(m, d, Up(sz), USERPAGES) && sz < KERNBASE
    ensures var r := AllocUvm(m, d, sz, newsz);
      && Good(r.0, all) && r.0.held == m.held && OnlyUser(m, r.0, d) && r.1 < KERNBASE
      && AllAbsent(r.0, d, Up(if r.1 == 0 then sz else r.1), USERPAGES)
  {
    hide Good, Around, AllAbsent, AllNew, SameMaps, SpaceSame, AllocUvm, AllocPages;
    GoodIs(m, all);
    AllocUvmIs(m, d, sz, newsz, all);
    var r := AllocUvm(m, d, sz, newsz);
    AroundSelf(m, d, 0, USERPAGES);
    if sz <= newsz < KERNBASE {
      if AllocPages(m, d, Up(sz), Up(newsz)).1 == Done {
        AbsentBeyond(m, r.0, d, Up(sz), Up(newsz), Up(sz));
        AroundWider(m, r.0, d, Up(sz), Up(newsz), 0, USERPAGES);
        assert newsz == 0 ==> sz == 0;
      } else {
        MapsSpace(m, r.0, d);
        AbsentSame(m, r.0, d, Up(sz));
        SameAround(m, r.0, d, 0, USERPAGES);
      }
    }
  }

  /** After every step each frame has one owner, whatever sizes processes believe in. */
  lemma {:induction false} StepConserves(s: Sys, step: Step, all: set<nat>, data: nat)
    requires Good(s.mem, all) && Bounded(s.mem, s.sizes, data) && Ready(s) && 0x100 < data < 0xE000
    requires Enabled(s, step) && !Panics(s, step)
    ensures Good(Next(s, step, data).mem, all) && Bounded(Next(s, step, data).mem, Next(s, step, data).sizes, data)
  {
    hide Next, Good, Bounded, Ready, Panics;
    if step.Load? || step.Grow? {
      SizeConserves(s, step, all, data);
    } else if step.Setup? || step.Fork? {
      NewConserves(s, step, all, data);
    } else {
      FreeConserves(s, step, all, data);
    }
  }

  lemma {:induction false} SizeConserves(s: Sys, step: Step, all: set<nat>, data: nat)
    requires Good(s.mem, all) && Bounded(s.mem, s.sizes, data) && Ready(s) && 0x100 < data < 0xE000
    requires Enabled(s, step) && (step.Load? || step.Grow?)
    ensures Good(Next(s, step, data).mem, all) && Bounded(Next(s, step, data).mem, Next(s, step, data).sizes, data)
  {
    hide Good, Bounded, KernelHalf, AllAbsent, AllocUvm, GrowProc, OthersSame, Around;
    var d, sz := step.d, s.sizes[step.d];
    BoundedIs(s.mem, s.sizes, d, data);
    if step.Load? {
      LoadBounds(s.mem, d, sz, step.newsz, all);
    } else {
      GrowBounds(s.mem, d, sz, step.n, all);
    }
    var n := Next(s, step, data);
    UserOthers(s.mem, n.mem, d);
    UserKeys(s.mem, n.mem, d);
    KernelUser(s.mem, n.mem, d, data);
    assert n.sizes.Keys == s.sizes.Keys;
    BoundedFrom(s.mem, n.mem, s.sizes, n.sizes, d, data);
  }

  lemma BoundedKeys(m: Mem, sizes: map<nat, nat>, data: nat)
    requires Bounded(m, sizes, data)
    ensures sizes.Keys == m.dirs.Keys
  {
  }

  lemma {:induction false} NewConserves(s: Sys, step: Step, all: set<nat>, data: nat)
    requires Good(s.mem, all) && Bounded(s.mem, s.sizes, data) && Ready(s) && 0x100 < data < 0xE000
    requires Enabled(s, step) && !Panics(s, step) && (step.Setup? || step.Fork?)
    ensures Good(Next(s, step, data).mem, all) && Bounded(Next(s, step, data).mem, Next(s, step, data).sizes, data)
  {
    hide Good, Bounded, KernelHalf, SetupKvm, CopyUvm, SameMaps, OthersSame, AllPresent, AllCopied, AllAbsent;
    BoundedKeys(s.mem, s.sizes, data);
    var m, n := s.mem, Next(s, step, data);
    var d: nat := 0;
    if step.Setup? {
      SetupKvmIs(m, data, all);
      var r := SetupKvm(m, data);
      d := if r.1.Some? then r.1.value else 0;
    } else {
      BoundedIs(m, s.sizes, step.d, data);
      CopyUvmIs(m, step.d, s.sizes[step.d], data, all);
      var r := CopyUvm(m, step.d, s.sizes[step.d], data);
      d := if r.1.Some? then r.1.value else 0;
    }
    if n.sizes == s.sizes && n.mem.dirs == m.dirs && SameMaps(m, n.mem) {
      BoundedSame(m, n.mem, s.sizes, data);
    } else {
      BoundedFrom(m, n.mem, s.sizes, n.sizes, d, data);
    }
  }

  lemma {:induction false} FreeConserves(s: Sys, step: Step, all: set<nat>, data: nat)
    requires Good(s.mem, all) && Bounded(s.mem, s.sizes, data) && Ready(s) && 0x100 < data < 0xE000
    requires Enabled(s, step) && (step.Exit? || step.Kalloc? || step.Kfree?)
    ensures Good(Next(s, step, data).mem, all) && Bounded(Next(s, step, data).mem, Next(s, step, data).sizes, data)
  {
    hide Good, Bounded, SpaceOk, FreeVm, OthersSame, SameMaps;
    BoundedKeys(s.mem, s.sizes, data);
    if step.Exit? {
      FreeVmIs(s.mem, step.d, all);
      BoundedFrom(s.mem, FreeVm(s.mem, step.d), s.sizes, s.sizes - {step.d}, step.d, data);
    } else if step.Kfree? {
      ReleaseKeeps(s.mem, step.f, all);
      BoundedSame(s.mem, Release(s.mem, step.f), s.sizes, data);
    } else if s.mem.free != [] {
      TakeKeeps(s.mem, all);
      BoundedSame(s.mem, Take(s.mem), s.sizes, data);
    }
  }

  /**
   * From boot on each frame has one owner in every run whatever, up to a fork that panics, processes that empty
   * themselves included. The frames kernel code holds are an owner here; VmCost has which of them are lost.
   */
  lemma {:induction false} FramesAlways(ss: seq<Sys>, steps: seq<Step>, k: nat, all: set<nat>, data: nat)
    requires 0x100 < data < 0xE000 && Run(ss, steps, data) && Booted(ss[0], all) && k <= |steps|
    requires forall i | 0 <= i < k :: Enabled(ss[i], steps[i]) && !Panics(ss[i], steps[i])
    ensures Good(ss[k].mem, all) && Bounded(ss[k].mem, ss[k].sizes, data)
  {
    hide Good, Bounded, Next, Panics;
    if k == 0 {
      BootedInv(ss[0], all, data);
      NoSpaces(ss[0], all, data);
    } else {
      FramesAlways(ss, steps, k - 1, all, data);
      assert Taken(ss[k - 1], steps[k - 1], ss[k], data);
      StepConserves(ss[k - 1], steps[k - 1], all, data);
    }
  }

  lemma NoSpaces(s: Sys, all: set<nat>, data: nat)
    requires Booted(s, all) && Inv(s, all, data)
    ensures Good(s.mem, all) && Bounded(s.mem, s.sizes, data)
  {
  }

  /** A process that has emptied itself cannot fork: its size names pages that are gone, and copyuvm panics. */
  lemma {:induction false} EmptiedForkPanics(s: Sys, step: Step, all: set<nat>, data: nat)
    requires Inv(s, all, data) && Ready(s) && Enabled(s, step) && 0x100 < data < 0xE000 && Empties(s, step)
    ensures var t := Next(s, step, data); Enabled(t, Fork(step.d)) && Panics(t, Fork(step.d))
  {
    hide Good, Sized, Image, KernelHalf, AllAbsent, AllPresent, DeallocPages;
    SizedIs(s.mem, s.sizes, step.d, data);
    var sz := s.sizes[step.d];
    ShrinkIs(s.mem, step.d, sz, 0, all);
    NonePresent(DeallocUvm(s.mem, step.d, sz, 0).0, step.d, sz);
  }

  lemma NonePresent(m: Mem, d: nat, sz: nat)
    requires Image(m, d, 0) && 0 < sz < KERNBASE
    ensures !AllPresent(m, d, 0, Up(sz))
  {
    assert Entry(m, d, 0) == Absent;
  }
}
