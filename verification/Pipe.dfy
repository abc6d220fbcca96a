/** Pipes (pipe.c): a ring of bytes with 32-bit counters, shared by any number of processes. */
module Pipe {
  // Processes write, read, sleep, are woken, are killed and close ends. A step is what a process does
  // while it holds the pipe's lock.

  const PIPESIZE: nat := 512
  const WRAP: nat := 0x1_0000_0000

  type byte = x: int | 0 <= x < 256

  datatype Buf = Buf(data: seq<byte>, nread: nat, nwrite: nat)

  predicate Shape(b: Buf) {
    |b.data| == PIPESIZE && b.nread < WRAP && b.nwrite < WRAP
  }

  predicate Full(b: Buf) {
    b.nwrite == (b.nread + PIPESIZE) % WRAP
  }

  function Put(b: Buf, x: byte): Buf
    requires Shape(b)
  {
    Buf(b.data[b.nwrite % PIPESIZE := x], b.nread, (b.nwrite + 1) % WRAP)
  }

  /** The loop of pipewrite up to the first byte that finds no room: the bytes it took. */
  function PutAll(b: Buf, s: seq<byte>): (r: (Buf, nat))
    requires Shape(b)
    ensures Shape(r.0) && r.1 <= |s| && (r.1 < |s| ==> Full(r.0))
    decreases |s|
  {
    if s == [] || Full(b) then (b, 0)
    else
      var r := PutAll(Put(b, s[0]), s[1..]);
      (r.0, r.1 + 1)
  }

  /** The copying loop of piperead: at most n bytes. */
  function Get(b: Buf, n: nat): (r: (Buf, seq<byte>))
    requires Shape(b)
    ensures Shape(r.0) && |r.1| <= n && (|r.1| < n ==> r.0.nread == r.0.nwrite)
    decreases n
  {
    if n == 0 || b.nread == b.nwrite then (b, [])
    else
      var r := Get(b.(nread := (b.nread + 1) % WRAP), n - 1);
      (r.0, [b.data[b.nread % PIPESIZE]] + r.1)
  }

  // The ring against the bytes put in and taken out ----------------------------------------------

  /** The ring holds what was put in and not yet taken out. The counters may have wrapped. */
  ghost predicate Holds(b: Buf, put: seq<byte>, got: seq<byte>) {
    && Shape(b) && got <= put && |put| - |got| <= PIPESIZE
    && b.nwrite == |put| % WRAP && b.nread == |got| % WRAP
    && forall k | |got| <= k < |put| :: b.data[k % PIPESIZE] == put[k]
  }

  lemma Counters(b: Buf, put: seq<byte>, got: seq<byte>)
    requires Holds(b, put, got)
    ensures Full(b) <==> |put| - |got| == PIPESIZE
    ensures b.nread == b.nwrite <==> |put| == |got|
    ensures b.nwrite % PIPESIZE == |put| % PIPESIZE && b.nread % PIPESIZE == |got| % PIPESIZE
  {
    NearWrap(|put|, |got|);
    WrapSize(|put|);
    WrapSize(|got|);
  }

  /** The ring's size divides the range of the counters. */
  lemma WrapSize(n: nat)
    ensures n % WRAP % PIPESIZE == n % PIPESIZE
  {
    assert n == WRAP * (n / WRAP) + n % WRAP;
    assert WRAP * (n / WRAP) == PIPESIZE * (0x80_0000 * (n / WRAP));
  }

  lemma NearWrap(m: nat, n: nat)
    requires n <= m <= n + PIPESIZE
    ensures m % WRAP == n % WRAP <==> m == n
    ensures m % WRAP == (n % WRAP + PIPESIZE) % WRAP <==> m == n + PIPESIZE
  {
  }

  lemma WrapStep(n: nat)
    ensures (n + 1) % WRAP == (n % WRAP + 1) % WRAP
  {
  }

  /** Less than a ring apart, no two bytes share a place. */
  lemma Apart(k: nat, n: nat)
    requires k < n < k + PIPESIZE
    ensures k % PIPESIZE != n % PIPESIZE
  {
  }

  lemma {:induction false} PutHolds(b: Buf, x: byte, put: seq<byte>, got: seq<byte>)
    requires Holds(b, put, got) && !Full(b)
    ensures Holds(Put(b, x), put + [x], got)
  {
    Counters(b, put, got);
    var n, c := |put|, Put(b, x);
    WrapStep(n);
    forall k | |got| <= k < n + 1 ensures c.data[k % PIPESIZE] == (put + [x])[k] {
      if k < n {
        Apart(k, n);
      }
    }
  }

  lemma {:induction false} PutAllHolds(b: Buf, s: seq<byte>, put: seq<byte>, got: seq<byte>)
    requires Holds(b, put, got)
    ensures var r := PutAll(b, s); Holds(r.0, put + s[..r.1], got)
    decreases |s|
  {
    if s == [] || Full(b) {
      assert put + s[..0] == put;
    } else {
      PutHolds(b, s[0], put, got);
      PutAllHolds(Put(b, s[0]), s[1..], put + [s[0]], got);
      var r := PutAll(Put(b, s[0]), s[1..]);
      assert put + [s[0]] + s[1..][..r.1] == put + s[..r.1 + 1];
    }
  }

  lemma GetOne(b: Buf, put: seq<byte>, got: seq<byte>)
    requires Holds(b, put, got) && |got| < |put|
    ensures b.data[b.nread % PIPESIZE] == put[|got|]
    ensures Holds(b.(nread := (b.nread + 1) % WRAP), put, got + [put[|got|]])
  {
    Counters(b, put, got);
    WrapStep(|got|);
    OneMore(put, got);
  }

  lemma {:induction false} GetHolds(b: Buf, n: nat, put: seq<byte>, got: seq<byte>)
    requires Holds(b, put, got)
    ensures var r := Get(b, n); Holds(r.0, put, got + r.1)
    decreases n
  {
    Counters(b, put, got);
    if n == 0 || b.nread == b.nwrite {
      assert got + [] == got;
    } else {
      var x := put[|got|];
      var c := b.(nread := (b.nread + 1) % WRAP);
      GetOne(b, put, got);
      GetHolds(c, n - 1, put, got + [x]);
      assert got + [x] + Get(c, n - 1).1 == got + ([x] + Get(c, n - 1).1);
    }
  }

  lemma OneMore(put: seq<byte>, got: seq<byte>)
    requires got <= put && |got| < |put|
    ensures got + [put[|got|]] <= put
  {
  }

  // Processes -------------------------------------------------------------------------------------

  // i bytes of src are in the pipe already
  datatype Mode = Idle | Writing(src: seq<byte>, i: nat, asleep: bool) | Reading(n: nat, asleep: bool)

  datatype Process = Process(mode: Mode, killed: bool)

  // accepted: the bytes writers have put in; delivered: the bytes readers have taken out
  datatype Sys = Sys(buf: Buf, readopen: bool, writeopen: bool, procs: seq<Process>,
                     accepted: seq<byte>, delivered: seq<byte>)

  predicate WriterAsleep(p: Process) {
    p.mode.Writing? && p.mode.asleep
  }

  predicate ReaderAsleep(p: Process) {
    p.mode.Reading? && p.mode.asleep
  }

  function Awake(p: Process): Process {
    if p.mode.Writing? || p.mode.Reading? then p.(mode := p.mode.(asleep := false)) else p
  }

  // wakeup(&p->nread)
  function WakeReaders(procs: seq<Process>): (r: seq<Process>)
    ensures |r| == |procs|
    ensures forall t | 0 <= t < |procs| :: r[t] == if ReaderAsleep(procs[t]) then Awake(procs[t]) else procs[t]
  {
    if procs == [] then []
    else
      var p := procs[|procs| - 1];
      WakeReaders(procs[..|procs| - 1]) + [if ReaderAsleep(p) then Awake(p) else p]
  }

  // wakeup(&p->nwrite)
  function WakeWriters(procs: seq<Process>): (r: seq<Process>)
    ensures |r| == |procs|
    ensures forall t | 0 <= t < |procs| :: r[t] == if WriterAsleep(procs[t]) then Awake(procs[t]) else procs[t]
  {
    if procs == [] then []
    else
      var p := procs[|procs| - 1];
      WakeWriters(procs[..|procs| - 1]) + [if WriterAsleep(p) then Awake(p) else p]
  }

  datatype Step =
    | CallWrite(t: nat, src: seq<byte>)
    | CallRead(t: nat, n: nat)
    | Run(t: nat)    // from taking the lock to letting it go, by returning or sleeping
    | Kill(t: nat)
    | CloseRead
    | CloseWrite

  /** An end is open while someone uses it, and is closed once. */
  predicate Enabled(s: Sys, step: Step) {
    match step
    case CallWrite(t, _) => t < |s.procs| && s.procs[t].mode.Idle? && s.writeopen
    case CallRead(t, _) => t < |s.procs| && s.procs[t].mode.Idle? && s.readopen
    case Run(t) =>
      && t < |s.procs| && !s.procs[t].mode.Idle? && !s.procs[t].mode.asleep
      && InRange(s.procs[t].mode) && Shape(s.buf)
    case Kill(t) => t < |s.procs|
    case CloseRead => s.readopen && forall t | 0 <= t < |s.procs| :: !s.procs[t].mode.Reading?
    case CloseWrite => s.writeopen && forall t | 0 <= t < |s.procs| :: !s.procs[t].mode.Writing?
  }

  predicate InRange(m: Mode) {
    m.Writing? ==> m.i <= |m.src|
  }

  function WriteRun(s: Sys, t: nat): Sys
    requires Enabled(s, Run(t)) && s.procs[t].mode.Writing?
  {
    var p := s.procs[t];
    var r := PutAll(s.buf, p.mode.src[p.mode.i..]);
    var i := p.mode.i + r.1;
    var s1 := s.(buf := r.0, accepted := s.accepted + p.mode.src[p.mode.i..i]);
    if i == |p.mode.src| then
      s1.(procs := WakeReaders(s.procs[t := p.(mode := Idle)]))
    else if !s.readopen || p.killed then
      s1.(procs := s.procs[t := p.(mode := Idle)])
    else
      s1.(procs := WakeReaders(s.procs)[t := p.(mode := Writing(p.mode.src, i, true))])
  }

  function ReadRun(s: Sys, t: nat): Sys
    requires Enabled(s, Run(t)) && s.procs[t].mode.Reading?
  {
    var p := s.procs[t];
    if s.buf.nread == s.buf.nwrite && s.writeopen then
      if p.killed then s.(procs := s.procs[t := p.(mode := Idle)])
      else s.(procs := s.procs[t := p.(mode := Reading(p.mode.n, true))])
    else
      var r := Get(s.buf, p.mode.n);
      s.(buf := r.0, delivered := s.delivered + r.1, procs := WakeWriters(s.procs[t := p.(mode := Idle)]))
  }

  function Next(s: Sys, step: Step): Sys
    requires Enabled(s, step)
  {
    match step
    case CallWrite(t, src) => s.(procs := s.procs[t := s.procs[t].(mode := Writing(src, 0, false))])
    case CallRead(t, n) => s.(procs := s.procs[t := s.procs[t].(mode := Reading(n, false))])
    case Run(t) => if s.procs[t].mode.Writing? then WriteRun(s, t) else ReadRun(s, t)
    case Kill(t) => s.(procs := s.procs[t := Awake(s.procs[t]).(killed := true)])
    case CloseRead => s.(readopen := false, procs := WakeWriters(s.procs))
    case CloseWrite => s.(writeopen := false, procs := WakeReaders(s.procs))
  }

  // What holds in every run ------------------------------------------------------------------------

  ghost predicate ProcOk(s: Sys, p: Process) {
    && InRange(p.mode)
    && (p.mode.Writing? ==> s.writeopen)
    && (p.mode.Reading? ==> s.readopen)
    && (WriterAsleep(p) ==> Full(s.buf) && s.readopen)
  }

  ghost predicate SomeAsleep(s: Sys, writers: bool) {
    exists t :: 0 <= t < |s.procs| && if writers then WriterAsleep(s.procs[t]) else ReaderAsleep(s.procs[t])
  }

  /** Delivered bytes are a prefix of accepted ones, a sleeping writer has a full pipe, and not both
      sides sleep. */
  ghost predicate Inv(s: Sys) {
    && Holds(s.buf, s.accepted, s.delivered)
    && (forall t | 0 <= t < |s.procs| :: ProcOk(s, s.procs[t]))
    && !(SomeAsleep(s, true) && SomeAsleep(s, false))
  }

  /** A sleeping reader has an empty pipe whose other end is open. */
  ghost predicate Prompt(s: Sys) {
    SomeAsleep(s, false) ==> s.buf.nread == s.buf.nwrite && s.writeopen
  }

  function Room(s: Sys): int {
    PIPESIZE - (|s.accepted| - |s.delivered|)
  }

  /** A killed writer with more bytes than there is room for puts in what fits and returns without
      waking the readers. */
  predicate Strands(s: Sys, step: Step)
    requires Enabled(s, step)
  {
    step.Run? && s.procs[step.t].mode.Writing? &&
    var p := s.procs[step.t];
    (p.killed || !s.readopen) && 0 < Room(s) < |p.mode.src| - p.mode.i
  }

  lemma {:induction false} PutsRoom(b: Buf, s: seq<byte>, put: seq<byte>, got: seq<byte>)
    requires Holds(b, put, got)
    ensures var room := PIPESIZE - (|put| - |got|); PutAll(b, s).1 == if |s| < room then |s| else room
    decreases |s|
  {
    Counters(b, put, got);
    if s != [] && !Full(b) {
      PutHolds(b, s[0], put, got);
      PutsRoom(Put(b, s[0]), s[1..], put + [s[0]], got);
    }
  }

  lemma NotBoth(b: Buf, put: seq<byte>, got: seq<byte>)
    requires Holds(b, put, got)
    ensures !(Full(b) && b.nread == b.nwrite)
  {
    Counters(b, put, got);
  }

  /** A full pipe takes nothing. */
  lemma FullTakes(b: Buf, s: seq<byte>)
    requires Shape(b) && Full(b)
    ensures PutAll(b, s) == (b, 0)
  {
  }

  lemma {:induction false} WriteKeeps(s: Sys, t: nat)
    requires Inv(s) && Enabled(s, Run(t)) && s.procs[t].mode.Writing?
    ensures Inv(WriteRun(s, t))
  {
    hide Holds, PutAll, Full, Shape;
    var p, u := s.procs[t], WriteRun(s, t);
    assert ProcOk(s, p);
    var rest := p.mode.src[p.mode.i..];
    PutAllHolds(s.buf, rest, s.accepted, s.delivered);
    assert rest[..PutAll(s.buf, rest).1] == p.mode.src[p.mode.i..p.mode.i + PutAll(s.buf, rest).1];
    forall k | 0 <= k < |u.procs| ensures ProcOk(u, u.procs[k]) {
      assert ProcOk(s, s.procs[k]);
      if WriterAsleep(s.procs[k]) {
        FullTakes(s.buf, rest);
      }
    }
    SameAsleep(s, u, t);
  }

  /** Only process t changed, from awake to idle. */
  ghost predicate Returns(s: Sys, u: Sys, t: nat) {
    && |u.procs| == |s.procs| && t < |s.procs| && u.procs[t].mode.Idle? && !ReaderAsleep(s.procs[t])
    && forall k | 0 <= k < |s.procs| && k != t :: u.procs[k] == s.procs[k]
  }

  lemma SameAsleep(s: Sys, u: Sys, t: nat)
    requires !(SomeAsleep(s, true) && SomeAsleep(s, false))
    requires (|u.procs| == |s.procs| && forall k | 0 <= k < |s.procs| :: !ReaderAsleep(u.procs[k])) || Returns(s, u, t)
    ensures !(SomeAsleep(u, true) && SomeAsleep(u, false))
    ensures Returns(s, u, t) ==> (SomeAsleep(u, false) <==> SomeAsleep(s, false))
  {
    if SomeAsleep(s, false) {
      var k :| 0 <= k < |s.procs| && ReaderAsleep(s.procs[k]);
      assert Returns(s, u, t) ==> ReaderAsleep(u.procs[k]);
    }
    if SomeAsleep(u, true) {
      var a :| 0 <= a < |s.procs| && WriterAsleep(u.procs[a]);
      assert Returns(s, u, t) ==> WriterAsleep(s.procs[a]);
    }
  }

  lemma {:induction false} ReadKeeps(s: Sys, t: nat)
    requires Inv(s) && Enabled(s, Run(t)) && s.procs[t].mode.Reading?
    ensures Inv(ReadRun(s, t))
  {
    hide Holds, Get, Full, Shape;
    var p, u := s.procs[t], ReadRun(s, t);
    assert ProcOk(s, p);
    NotBoth(s.buf, s.accepted, s.delivered);
    GetHolds(s.buf, p.mode.n, s.accepted, s.delivered);
    forall k | 0 <= k < |u.procs| ensures ProcOk(u, u.procs[k]) {
      assert ProcOk(s, s.procs[k]);
    }
  }

  lemma FewerAsleep(s: Sys, u: Sys, writers: bool)
    requires |u.procs| == |s.procs|
    requires forall k | 0 <= k < |s.procs| ::
      if writers then WriterAsleep(u.procs[k]) ==> WriterAsleep(s.procs[k])
      else ReaderAsleep(u.procs[k]) ==> ReaderAsleep(s.procs[k])
    ensures SomeAsleep(u, writers) ==> SomeAsleep(s, writers)
  {
    if SomeAsleep(u, writers) {
      var k :| 0 <= k < |s.procs| && if writers then WriterAsleep(u.procs[k]) else ReaderAsleep(u.procs[k]);
      assert if writers then WriterAsleep(s.procs[k]) else ReaderAsleep(s.procs[k]);
    }
  }

  lemma {:induction false} StepKeeps(s: Sys, step: Step)
    requires Inv(s) && Enabled(s, step)
    ensures Inv(Next(s, step))
  {
    hide Holds, Full, WriteRun, ReadRun;
    if step.Run? {
      if s.procs[step.t].mode.Writing? {
        WriteKeeps(s, step.t);
      } else {
        ReadKeeps(s, step.t);
      }
    } else {
      var u := Next(s, step);
      forall k | 0 <= k < |u.procs| ensures ProcOk(u, u.procs[k]) {
        assert ProcOk(s, s.procs[k]);
      }
      FewerAsleep(s, u, true);
      FewerAsleep(s, u, false);
    }
  }

  /** Exactly the stranding steps break the promptness of readers. */
  lemma {:induction false} PromptIff(s: Sys, step: Step)
    requires Inv(s) && Prompt(s) && Enabled(s, step)
    ensures Prompt(Next(s, step)) <==> !(Strands(s, step) && SomeAsleep(s, false))
  {
    hide Holds, Full, WriteRun, ReadRun, Inv;
    if step.Run? {
      if s.procs[step.t].mode.Writing? {
        PromptWrite(s, step.t);
      } else {
        PromptRead(s, step.t);
      }
    } else if !step.CloseWrite? {
      FewerAsleep(s, Next(s, step), false);
    }
  }

  lemma {:induction false} PromptRead(s: Sys, t: nat)
    requires Inv(s) && Prompt(s) && Enabled(s, Run(t)) && s.procs[t].mode.Reading?
    ensures Prompt(ReadRun(s, t))
  {
    hide Holds, Full, Get, Inv;
    var u := ReadRun(s, t);
    if !(s.buf.nread == s.buf.nwrite && s.writeopen) {
      FewerAsleep(s, u, false);
    } else if s.procs[t].killed {
      FewerAsleep(s, u, false);
    }
  }

  lemma {:induction false} PromptWrite(s: Sys, t: nat)
    requires Inv(s) && Prompt(s) && Enabled(s, Run(t)) && s.procs[t].mode.Writing?
    ensures Prompt(WriteRun(s, t)) <==> !(Strands(s, Run(t)) && SomeAsleep(s, false))
  {
    hide Holds, PutAll, Full, Shape;
    var p, u := s.procs[t], WriteRun(s, t);
    var rest := p.mode.src[p.mode.i..];
    PutAllHolds(s.buf, rest, s.accepted, s.delivered);
    PutsRoom(s.buf, rest, s.accepted, s.delivered);
    CountersAfter(s.buf, rest, s.accepted, s.delivered);
    SameAsleep(s, u, t);
    assert s.writeopen by { assert ProcOk(s, p); }
  }

  lemma CountersAfter(b: Buf, s: seq<byte>, put: seq<byte>, got: seq<byte>)
    requires Holds(b, put, got)
    ensures var r := PutAll(b, s);
      && Holds(r.0, put + s[..r.1], got)
      && (r.0.nread == r.0.nwrite <==> |put| + r.1 == |got|)
      && (b.nread == b.nwrite <==> |put| == |got|) && |got| <= |put|
  {
    PutAllHolds(b, s, put, got);
    var r := PutAll(b, s);
    Counters(r.0, put + s[..r.1], got);
    Counters(b, put, got);
  }

  // What each stretch does, in bytes accepted and delivered ---------------------------------------

  /**
   * pipewrite puts in as much as there is room for. It returns when that was all, or when nobody reads or it was
   * killed, and sleeps otherwise; readers are woken unless it gives up.
   */
  lemma WriteTakes(s: Sys, t: nat)
    requires Inv(s) && Enabled(s, Run(t)) && s.procs[t].mode.Writing?
    ensures |Next(s, Run(t)).procs| == |s.procs|
    ensures var u, m, free := Next(s, Run(t)), s.procs[t].mode, PIPESIZE - (|s.accepted| - |s.delivered|);
      var i := if |m.src| - m.i <= free then |m.src| else m.i + free;
      var gives := i < |m.src| && (!s.readopen || s.procs[t].killed);
      && u.accepted == s.accepted + m.src[m.i..i] && u.delivered == s.delivered
      && u.procs[t].mode == (if i == |m.src| || gives then Idle else Writing(m.src, i, true))
      && forall k | 0 <= k < |s.procs| && k != t ::
           u.procs[k] == if ReaderAsleep(s.procs[k]) && !gives then Awake(s.procs[k]) else s.procs[k]
  {
    hide Holds, PutAll, Full, Shape;
    assert ProcOk(s, s.procs[t]);
    Counters(s.buf, s.accepted, s.delivered);
    assert |s.accepted| - |s.delivered| <= PIPESIZE by { Spread(s.buf, s.accepted, s.delivered); }
    PutsRoom(s.buf, s.procs[t].mode.src[s.procs[t].mode.i..], s.accepted, s.delivered);
  }

  lemma Spread(b: Buf, put: seq<byte>, got: seq<byte>)
    requires Holds(b, put, got)
    ensures got <= put && |put| - |got| <= PIPESIZE
  {
  }

  /** piperead sleeps, or gives up when killed, on an empty pipe somebody may write to; otherwise it takes the next
      n bytes, or all there are, and wakes the writers. */
  lemma ReadTakes(s: Sys, t: nat)
    requires Inv(s) && Enabled(s, Run(t)) && s.procs[t].mode.Reading?
    ensures |Next(s, Run(t)).procs| == |s.procs|
    ensures var u, n, waiting := Next(s, Run(t)), s.procs[t].mode.n, |s.accepted| - |s.delivered|;
      var j := |s.delivered| + if n <= waiting then n else waiting;
      if waiting == 0 && s.writeopen then
        u == s.(procs := s.procs[t := s.procs[t].(mode := if s.procs[t].killed then Idle else Reading(n, true))])
      else
        && u.accepted == s.accepted && j <= |s.accepted| && u.delivered == s.accepted[..j] && u.procs[t].mode == Idle
        && forall k | 0 <= k < |s.procs| && k != t ::
             u.procs[k] == if WriterAsleep(s.procs[k]) then Awake(s.procs[k]) else s.procs[k]
  {
    hide Holds, Get, Full, Shape;
    assert ProcOk(s, s.procs[t]);
    Counters(s.buf, s.accepted, s.delivered);
    Spread(s.buf, s.accepted, s.delivered);
    var n, r := s.procs[t].mode.n, Get(s.buf, s.procs[t].mode.n);
    GetHolds(s.buf, n, s.accepted, s.delivered);
    Spread(r.0, s.accepted, s.delivered + r.1);
    Counters(r.0, s.accepted, s.delivered + r.1);
  }

  /** Closing an end wakes exactly the sleepers of the other side, and a kill its victim. */
  lemma ClosesIs(s: Sys, step: Step, k: nat)
    requires Enabled(s, step) && (step.CloseRead? || step.CloseWrite? || step.Kill?) && k < |s.procs|
    ensures var u := Next(s, step);
      && |u.procs| == |s.procs| && u.buf == s.buf && u.accepted == s.accepted && u.delivered == s.delivered
      && u.readopen == (s.readopen && !step.CloseRead?) && u.writeopen == (s.writeopen && !step.CloseWrite?)
    ensures var p, q := s.procs[k], Next(s, step).procs[k];
      var wakes := if step.Kill? then k == step.t else if step.CloseRead? then WriterAsleep(p) else ReaderAsleep(p);
      && q.killed == (p.killed || step == Kill(k)) && (!wakes ==> q == p)
      && (wakes && !p.mode.Idle? ==> q.mode == p.mode.(asleep := false)) && (p.mode.Idle? ==> q.mode == p.mode)
  {
  }

  // Runs ------------------------------------------------------------------------------------------

  predicate Legal(s: Sys, run: seq<Step>)
    decreases |run|
  {
    run == [] || (Enabled(s, run[0]) && Legal(Next(s, run[0]), run[1..]))
  }

  function Exec(s: Sys, run: seq<Step>): Sys
    requires Legal(s, run)
    decreases |run|
  {
    if run == [] then s else Exec(Next(s, run[0]), run[1..])
  }

  /** No killed writer gives up on a full pipe it has just filled while a reader sleeps. */
  ghost predicate NoneStranded(s: Sys, run: seq<Step>)
    requires Legal(s, run)
    decreases |run|
  {
    run == [] || (!(Strands(s, run[0]) && SomeAsleep(s, false)) && NoneStranded(Next(s, run[0]), run[1..]))
  }

  /** pipealloc */
  function Start(nproc: nat): Sys {
    Sys(Buf(seq(PIPESIZE, _ => 0), 0, 0), true, true, seq(nproc, _ => Process(Idle, false)), [], [])
  }

  lemma {:induction false} RunKeeps(s: Sys, run: seq<Step>)
    requires Inv(s) && Legal(s, run)
    ensures Inv(Exec(s, run))
    ensures Prompt(s) && NoneStranded(s, run) ==> Prompt(Exec(s, run))
    decreases |run|
  {
    hide Inv, Enabled, Next, Prompt, Strands;
    if run != [] {
      StepKeeps(s, run[0]);
      if Prompt(s) {
        PromptIff(s, run[0]);
      }
      RunKeeps(Next(s, run[0]), run[1..]);
    }
  }

  /** In every run what readers got is a prefix of what writers put in, at most PIPESIZE bytes are
      between, a sleeping writer has a full pipe and readers and writers do not all sleep. If no writer
      is stranded, a sleeping reader has an empty one. */
  lemma {:induction false} PipeRuns(nproc: nat, run: seq<Step>)
    requires Legal(Start(nproc), run)
    ensures var s := Exec(Start(nproc), run);
      && s.delivered <= s.accepted && |s.accepted| - |s.delivered| <= PIPESIZE
      && (SomeAsleep(s, true) ==> |s.accepted| - |s.delivered| == PIPESIZE && s.readopen)
      && !(SomeAsleep(s, true) && SomeAsleep(s, false))
      && (NoneStranded(Start(nproc), run) && SomeAsleep(s, false) ==> s.accepted == s.delivered && s.writeopen)
  {
    hide Exec, Next, Full, NoneStranded;
    RunKeeps(Start(nproc), run);
    var s := Exec(Start(nproc), run);
    Counters(s.buf, s.accepted, s.delivered);
    if SomeAsleep(s, true) {
      var t :| 0 <= t < |s.procs| && WriterAsleep(s.procs[t]);
      assert ProcOk(s, s.procs[t]);
    }
  }

  const TOOMUCH: seq<byte> := seq(PIPESIZE + 1, _ => 7)
  const LOST: seq<Step> := [CallRead(0, 1), Run(0), CallWrite(1, TOOMUCH), Kill(1)]

  /** A reader sleeps, and a killed writer is about to fill the pipe and leave it asleep. */
  lemma StrandingHappens()
    ensures Legal(Start(2), LOST)
    ensures var s := Exec(Start(2), LOST);
      Enabled(s, Run(1)) && Strands(s, Run(1)) && SomeAsleep(s, false) && !Prompt(Next(s, Run(1)))
  {
    var s0 := Start(2);
    var s1 := Next(s0, CallRead(0, 1));
    var s2 := Next(s1, Run(0));
    assert s2 == s0.(procs := [Process(Reading(1, true), false), Process(Idle, false)]);
    var s3 := Next(s2, CallWrite(1, TOOMUCH));
    var s4 := Next(s3, Kill(1));
    assert s4 == s0.(procs := [Process(Reading(1, true), false), Process(Writing(TOOMUCH, 0, false), true)]);
    var r1 := LOST[1..];
    var r2 := r1[1..];
    var r3 := r2[1..];
    assert r3[1..] == [] && r3[0] == Kill(1);
    assert Legal(s4, []) && Exec(s4, []) == s4;
    assert Legal(s3, r3) && Exec(s3, r3) == s4;
    assert Legal(s2, r2) && Exec(s2, r2) == s4;
    assert Legal(s1, r1) && Exec(s1, r1) == s4;
    assert ReaderAsleep(s4.procs[0]);
    StrandedBreaks(s4);
  }

  lemma StrandedBreaks(s: Sys)
    requires Inv(s) && Prompt(s) && Enabled(s, Run(1)) && Strands(s, Run(1)) && SomeAsleep(s, false)
    ensures !Prompt(Next(s, Run(1)))
  {
    hide Inv, Prompt, Next, Strands;
    PromptIff(s, Run(1));
  }
}
