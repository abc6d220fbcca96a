/**
 * Link counts, directories and references (sysfile.c: create, link, unlink; fs.c: dirlookup, dirlink,
 * iget, ilock, iput, ialloc), as steps between which no inode is locked.
 */
module Links {
  const ROOT: nat := 1

  // At most DIRSIZ characters, none of them zero: what skipelem leaves of a path element.
  type Name = n: string | |n| <= 14 witness ""

  const DOT: Name := "."
  const DOTDOT: Name := ".."

  // inum 0 is an unused entry
  datatype Entry = Entry(inum: nat, name: Name)

  const UNUSED: Entry := Entry(0, "")

  datatype Kind = Free | Dir | File | Dev

  // The on-disk inode, and how often and whether it is in the inode cache.
  datatype Node = Node(kind: Kind, nlink: int, ents: seq<Entry>, ref: nat, valid: bool)

  const FREE: Node := Node(Free, 0, [], 0, false)

  // linking: calls of link between counting the new link and entering it
  datatype State = State(nodes: seq<Node>, linking: multiset<nat>)

  // Counting ------------------------------------------------------------------------------

  predicate Names(e: Entry, i: nat) {
    e.inum == i && e.inum != 0 && e.name != DOT
  }

  /** Entries other than "." that name inode i. */
  function CountIn(ents: seq<Entry>, i: nat): (n: nat) {
    if ents == [] then 0
    else CountIn(ents[..|ents| - 1], i) + if Names(ents[|ents| - 1], i) then 1 else 0
  }

  predicate Linked(n: Node) {
    n.kind.Dir? && n.nlink > 0
  }

  function CountNode(n: Node, i: nat): (c: nat) {
    if Linked(n) then CountIn(n.ents, i) else 0
  }

  /** Entries other than "." in linked directories that name inode i. */
  function Count(nodes: seq<Node>, i: nat): (c: nat) {
    if nodes == [] then 0
    else Count(nodes[..|nodes| - 1], i) + CountNode(nodes[|nodes| - 1], i)
  }

  lemma {:induction false} CountSet(nodes: seq<Node>, d: nat, n: Node, i: nat)
    requires d < |nodes|
    ensures Count(nodes[d := n], i) == Count(nodes, i) - CountNode(nodes[d], i) + CountNode(n, i)
  {
    var m := |nodes| - 1;
    if d == m {
      assert nodes[d := n][..m] == nodes[..m];
    } else {
      assert nodes[d := n][..m] == nodes[..m][d := n];
      CountSet(nodes[..m], d, n, i);
    }
  }

  lemma {:induction false} CountInSet(ents: seq<Entry>, k: nat, e: Entry, i: nat)
    requires k < |ents|
    ensures CountIn(ents[k := e], i) ==
      CountIn(ents, i) - (if Names(ents[k], i) then 1 else 0) + (if Names(e, i) then 1 else 0)
  {
    var m := |ents| - 1;
    if k == m {
      assert ents[k := e][..m] == ents[..m];
    } else {
      assert ents[k := e][..m] == ents[..m][k := e];
      CountInSet(ents[..m], k, e, i);
    }
  }

  lemma CountInAdd(ents: seq<Entry>, e: Entry, i: nat)
    ensures CountIn(ents + [e], i) == CountIn(ents, i) + if Names(e, i) then 1 else 0
  {
    assert (ents + [e])[..|ents|] == ents;
  }

  lemma {:induction false} CountInNone(ents: seq<Entry>, i: nat)
    ensures CountIn(ents, i) == 0 <==> forall k | 0 <= k < |ents| :: !Names(ents[k], i)
  {
    if ents != [] {
      CountInNone(ents[..|ents| - 1], i);
    }
  }

  lemma {:induction false} CountInOne(ents: seq<Entry>, k: nat, i: nat)
    requires k < |ents| && Names(ents[k], i)
    requires forall j | 0 <= j < |ents| && j != k :: !Names(ents[j], i)
    ensures CountIn(ents, i) == 1
  {
    CountInSet(ents, k, UNUSED, i);
    CountInNone(ents[k := UNUSED], i);
  }

  lemma {:induction false} CountNone(nodes: seq<Node>, i: nat)
    ensures Count(nodes, i) == 0 <==> forall d | 0 <= d < |nodes| :: CountNode(nodes[d], i) == 0
  {
    if nodes != [] {
      CountNone(nodes[..|nodes| - 1], i);
    }
  }

  lemma CountOne(nodes: seq<Node>, d: nat, i: nat)
    requires d < |nodes| && forall j | 0 <= j < |nodes| && j != d :: CountNode(nodes[j], i) == 0
    ensures Count(nodes, i) == CountNode(nodes[d], i)
  {
    CountSet(nodes, d, FREE, i);
    CountNone(nodes[d := FREE], i);
  }

  lemma CountTwo(nodes: seq<Node>, d: nat, e: nat, i: nat)
    requires d < |nodes| && e < |nodes| && d != e
    ensures Count(nodes, i) >= CountNode(nodes[d], i) + CountNode(nodes[e], i)
  {
    CountSet(nodes, d, FREE, i);
    CountSet(nodes[d := FREE], e, FREE, i);
  }

  // The steps --------------------------------------------------------------------------------

  /** The entry with this name, or |ents| (dirlookup). */
  function Find(ents: seq<Entry>, name: Name): (k: nat)
    ensures k <= |ents| && (k < |ents| ==> ents[k].inum != 0 && ents[k].name == name)
    ensures forall j | 0 <= j < k :: ents[j].inum == 0 || ents[j].name != name
  {
    if ents == [] || (ents[0].inum != 0 && ents[0].name == name) then 0 else 1 + Find(ents[1..], name)
  }

  /** The first unused entry, or |ents| (dirlink). */
  function Unused(ents: seq<Entry>): (k: nat)
    ensures k <= |ents| && (k < |ents| ==> ents[k].inum == 0)
    ensures forall j | 0 <= j < k :: ents[j].inum != 0
  {
    if ents == [] || ents[0].inum == 0 then 0 else 1 + Unused(ents[1..])
  }

  function Enter(ents: seq<Entry>, e: Entry): seq<Entry> {
    var k := Unused(ents);
    if k < |ents| then ents[k := e] else ents + [e]
  }

  /** No entry from the third on is used (isdirempty). */
  predicate Empty(ents: seq<Entry>) {
    forall k | 2 <= k < |ents| :: ents[k].inum == 0
  }

  /** The first free inode from 1 on, or |nodes| (ialloc). */
  function FreeNode(nodes: seq<Node>, from: nat): (i: nat)
    requires from <= |nodes|
    ensures from <= i <= |nodes| && (i < |nodes| ==> nodes[i].kind.Free?)
    ensures forall j | from <= j < i :: !nodes[j].kind.Free?
    decreases |nodes| - from
  {
    if from == |nodes| || nodes[from].kind.Free? then from else FreeNode(nodes, from + 1)
  }

  // iget
  function Get(n: Node): Node {
    n.(ref := n.ref + 1, valid := n.valid && n.ref > 0)
  }

  // iput: the last reference to an inode without links frees it
  function Put(n: Node): (r: Node)
    requires n.ref > 0
  {
    if n.valid && n.nlink == 0 && n.ref == 1 then Node(Free, 0, [], 0, false) else n.(ref := n.ref - 1)
  }

  function PutAt(nodes: seq<Node>, i: nat): seq<Node>
    requires i < |nodes| && nodes[i].ref > 0
  {
    nodes[i := Put(nodes[i])]
  }

  datatype Step =
    | GetRoot
    | Lookup(d: nat, k: nat)           // iget of what entry k of a referenced directory names
    | Dup(i: nat)
    | Lock(i: nat)                     // ilock and iunlock: the inode is read from disk
    | Drop(i: nat)                     // iput
    | Create(d: nat, name: Name, kind: Kind)
    | Unlink(d: nat, name: Name)
    | LinkCount(i: nat)                // link up to its first iunlock
    | LinkEnter(i: nat, d: nat, name: Name)
    | LinkUndo(i: nat)                 // link when there is no parent directory

  /** d is a directory some process refers to. */
  predicate Open(s: State, d: nat) {
    d < |s.nodes| && s.nodes[d].ref > 0 && s.nodes[d].kind.Dir?
  }

  predicate Held(s: State, i: nat) {
    i < |s.nodes| && s.nodes[i].ref > 0
  }

  // What each step is given, short of the panics "ilock: no type" and "ialloc: no inodes" and of
  // waiting for ever: to link over "." the code would wait for a lock it holds itself.
  predicate Enabled(s: State, step: Step) {
    match step
    case GetRoot => ROOT < |s.nodes|
    case Lookup(d, k) => Open(s, d) && k < |s.nodes[d].ents| && 0 < s.nodes[d].ents[k].inum < |s.nodes|
    case Dup(i) => Held(s, i)
    case Lock(i) => Held(s, i) && !s.nodes[i].kind.Free?
    case Drop(i) => Held(s, i)
    case Create(d, name, kind) =>
      && Open(s, d) && !kind.Free?
      && var k := Find(s.nodes[d].ents, name);
        if k == |s.nodes[d].ents| then FreeNode(s.nodes, 1) < |s.nodes|
        else s.nodes[d].ents[k].inum < |s.nodes| && !s.nodes[s.nodes[d].ents[k].inum].kind.Free?
    case Unlink(d, name) =>
      && Open(s, d)
      && var k := Find(s.nodes[d].ents, name);
        k < |s.nodes[d].ents| && name != DOT && name != DOTDOT ==>
          s.nodes[d].ents[k].inum < |s.nodes| && !s.nodes[s.nodes[d].ents[k].inum].kind.Free?
    case LinkCount(i) => Held(s, i) && !s.nodes[i].kind.Free?
    case LinkEnter(i, d, name) =>
      && s.linking[i] > 0 && Held(s, i) && Open(s, d) && d != i
      && var k := Find(s.nodes[d].ents, name);
        k < |s.nodes[d].ents| ==> s.nodes[d].ents[k].inum < |s.nodes| && s.nodes[d].ents[k].inum != d
    case LinkUndo(i) => s.linking[i] > 0 && Held(s, i)
  }

  /** An inode read from disk. */
  function Load(n: Node): Node {
    n.(valid := true)
  }

  function LockAt(nodes: seq<Node>, i: nat): seq<Node>
    requires i < |nodes|
  {
    nodes[i := Load(nodes[i])]
  }

  function GetAt(nodes: seq<Node>, i: nat): seq<Node>
    requires i < |nodes|
  {
    nodes[i := Get(nodes[i])]
  }

  /** A new inode, still referenced, entered in d. */
  function MakeNode(nodes: seq<Node>, d: nat, name: Name, kind: Kind): seq<Node>
    requires d < |nodes| && FreeNode(nodes, 1) < |nodes|
  {
    var i, dp := FreeNode(nodes, 1), nodes[d];
    var dots := if kind.Dir? then Enter(Enter([], Entry(i, DOT)), Entry(d, DOTDOT)) else [];
    nodes[i := Node(kind, 1, dots, 1, true)]
      [d := dp.(nlink := dp.nlink + if kind.Dir? then 1 else 0, ents := Enter(dp.ents, Entry(i, name)), valid := true)]
  }

  /** Entry k of d erased, and the counts it took lowered. */
  function Erase(nodes: seq<Node>, d: nat, k: nat, i: nat): seq<Node>
    requires d < |nodes| && k < |nodes[d].ents| && i < |nodes|
  {
    var dp := nodes[d];
    var nlink := dp.nlink - if nodes[i].kind.Dir? then 1 else 0;
    var nodes1 := nodes[d := dp.(nlink := nlink, ents := dp.ents[k := UNUSED])];
    nodes1[i := nodes1[i].(nlink := nodes1[i].nlink - 1)]
  }

  function DoCreate(s: State, d: nat, name: Name, kind: Kind): (t: State)
    requires Enabled(s, Create(d, name, kind))
    ensures |t.nodes| == |s.nodes|
  {
    var dp := s.nodes[d];
    var k := Find(dp.ents, name);
    if k == |dp.ents| then s.(nodes := PutAt(MakeNode(s.nodes, d, name, kind), d))
    else
      var i := dp.ents[k].inum;
      var nodes := LockAt(PutAt(GetAt(LockAt(s.nodes, d), i), d), i);
      if kind.File? && nodes[i].kind.File? then s.(nodes := nodes) else s.(nodes := PutAt(nodes, i))
  }

  function DoUnlink(s: State, d: nat, name: Name): (t: State)
    requires Enabled(s, Unlink(d, name))
    ensures |t.nodes| == |s.nodes|
  {
    var nodes := LockAt(s.nodes, d);
    var k := Find(s.nodes[d].ents, name);
    if name == DOT || name == DOTDOT || k == |s.nodes[d].ents| then s.(nodes := PutAt(nodes, d))
    else
      var i := s.nodes[d].ents[k].inum;
      var nodes1 := LockAt(GetAt(nodes, i), i);
      if nodes1[i].kind.Dir? && !Empty(nodes1[i].ents) then s.(nodes := PutAt(PutAt(nodes1, i), d))
      else s.(nodes := PutAt(PutAt(Erase(nodes1, d, k, i), d), i))
  }

  function DoUndo(s: State, i: nat): (t: State)
    requires Held(s, i)
    ensures |t.nodes| == |s.nodes|
  {
    var n := s.nodes[i];
    State(PutAt(s.nodes[i := n.(nlink := n.nlink - 1, valid := true)], i), s.linking - multiset{i})
  }

  function DoEnter(s: State, i: nat, d: nat, name: Name): (t: State)
    requires Enabled(s, LinkEnter(i, d, name))
    ensures |t.nodes| == |s.nodes|
  {
    var dp := s.nodes[d];
    var k := Find(dp.ents, name);
    if k < |dp.ents| then
      var t := dp.ents[k].inum;
      var nodes := PutAt(GetAt(LockAt(s.nodes, d), t), t);
      DoUndo(s.(nodes := PutAt(nodes, d)), i)
    else
      var nodes := PutAt(s.nodes[d := dp.(ents := Enter(dp.ents, Entry(i, name)), valid := true)], d);
      State(PutAt(nodes, i), s.linking - multiset{i})
  }

  function Next(s: State, step: Step): State
    requires Enabled(s, step)
  {
    match step
    case GetRoot => s.(nodes := GetAt(s.nodes, ROOT))
    case Lookup(d, k) => s.(nodes := GetAt(LockAt(s.nodes, d), s.nodes[d].ents[k].inum))
    case Dup(i) => s.(nodes := s.nodes[i := s.nodes[i].(ref := s.nodes[i].ref + 1)])
    case Lock(i) => s.(nodes := LockAt(s.nodes, i))
    case Drop(i) => s.(nodes := PutAt(s.nodes, i))
    case Create(d, name, kind) => DoCreate(s, d, name, kind)
    case Unlink(d, name) => DoUnlink(s, d, name)
    case LinkCount(i) =>
      var n := Load(s.nodes[i]);
      if n.kind.Dir? then s.(nodes := PutAt(LockAt(s.nodes, i), i))
      else State(s.nodes[i := n.(nlink := n.nlink + 1)], s.linking + multiset{i})
    case LinkEnter(i, d, name) => DoEnter(s, i, d, name)
    case LinkUndo(i) => DoUndo(s, i)
  }

  /** The steps that only look: one reference more, and nothing else but what is known of the inode. */
  lemma LooksIs(s: State, step: Step)
    requires Enabled(s, step) && (step.GetRoot? || step.Lookup? || step.Dup? || step.Lock?)
    ensures var t := Next(s, step);
      var i := if step.GetRoot? then ROOT else if step.Lookup? then s.nodes[step.d].ents[step.k].inum else step.i;
      && t.linking == s.linking && |t.nodes| == |s.nodes|
      && (forall j | 0 <= j < |s.nodes| :: t.nodes[j] == s.nodes[j].(ref := t.nodes[j].ref, valid := t.nodes[j].valid))
      && (forall j | 0 <= j < |s.nodes| :: t.nodes[j].ref == s.nodes[j].ref + if j == i && !step.Lock? then 1 else 0)
      && (step.Lock? ==> t.nodes[i].valid)
  {
  }

  // The invariant ----------------------------------------------------------------------------

  function Parent(n: Node): nat
    requires |n.ents| >= 2
  {
    n.ents[1].inum
  }

  /** An inode by itself. */
  ghost predicate NodeOk(n: Node, i: nat, size: nat) {
    && (n.kind.Free? ==> i != ROOT && n == FREE)
    && (!n.kind.Free? && n.nlink == 0 ==> n.ref > 0 && n.valid)
    && (if n.kind.Dir? then DirOk(n, i, size) else n.ents == [])
  }

  ghost predicate DirOk(n: Node, i: nat, size: nat) {
    && |n.ents| >= 2 && n.ents[0] == Entry(i, DOT) && n.ents[1].name == DOTDOT && 0 < Parent(n) < size
    && (forall j, k | 0 <= j < k < |n.ents| && n.ents[j].inum != 0 && n.ents[k].inum != 0 ::
          n.ents[j].name != n.ents[k].name)
    && (n.nlink <= 0 ==> Empty(n.ents))
  }

  ghost predicate Counts(s: State) {
    forall i | 0 <= i < |s.nodes| :: s.nodes[i].nlink == Count(s.nodes, i) + s.linking[i]
  }

  ghost predicate Nodes(s: State) {
    && (forall i | i in s.linking :: 0 < i < |s.nodes| && !s.nodes[i].kind.Dir?)
    && (forall i | 0 <= i < |s.nodes| :: NodeOk(s.nodes[i], i, |s.nodes|))
    && ROOT < |s.nodes| && s.nodes[0] == FREE
  }

  /** What entry k of linked directory d may name. */
  ghost predicate EntryOk(nodes: seq<Node>, d: nat, k: nat)
    requires d < |nodes| && k < |nodes[d].ents|
  {
    var c := nodes[d].ents[k].inum;
    && c < |nodes|
    && (nodes[c].kind.Dir? && c != 0 ==>
          && c != ROOT && Linked(nodes[c]) && |nodes[c].ents| >= 2 && Parent(nodes[c]) == d
          && forall j | 2 <= j < |nodes[d].ents| && j != k :: nodes[d].ents[j].inum != c)
  }

  /** Linked directory c is the root or has an entry in its linked parent. */
  ghost predicate ParentOk(nodes: seq<Node>, c: nat, rank: seq<nat>)
    requires c < |nodes| == |rank| && |nodes[c].ents| >= 2
  {
    var p := Parent(nodes[c]);
    if c == ROOT then p == ROOT
    else
      && p < |nodes| && Linked(nodes[p]) && rank[p] < rank[c]
      && exists k :: 2 <= k < |nodes[p].ents| && nodes[p].ents[k].inum == c
  }

  ghost predicate Tree(nodes: seq<Node>, rank: seq<nat>) {
    && |rank| == |nodes| && ROOT < |nodes| && Linked(nodes[ROOT])
    && (forall d | 0 <= d < |nodes| && Linked(nodes[d]) :: |nodes[d].ents| >= 2)
    && (forall d, k | 0 <= d < |nodes| && Linked(nodes[d]) && 2 <= k < |nodes[d].ents| :: EntryOk(nodes, d, k))
    && (forall c | 0 <= c < |nodes| && Linked(nodes[c]) :: ParentOk(nodes, c, rank))
  }

  ghost predicate Inv(s: State) {
    Counts(s) && Nodes(s) && exists rank :: Tree(s.nodes, rank)
  }

  // Steps keep it -------------------------------------------------------------------------------

  /** Nothing but references changed. */
  predicate SameLinks(n: Node, m: Node) {
    n.kind == m.kind && n.nlink == m.nlink && n.ents == m.ents
  }

  lemma TreeSame(nodes: seq<Node>, nodes': seq<Node>, rank: seq<nat>)
    requires Tree(nodes, rank) && |nodes'| == |nodes|
    requires forall i | 0 <= i < |nodes| :: SameLinks(nodes[i], nodes'[i])
    ensures Tree(nodes', rank)
  {
    forall d, k | 0 <= d < |nodes| && Linked(nodes'[d]) && 2 <= k < |nodes'[d].ents| ensures EntryOk(nodes', d, k) {
      assert Linked(nodes[d]) && EntryOk(nodes, d, k);
    }
    forall c | 0 <= c < |nodes| && Linked(nodes'[c]) ensures ParentOk(nodes', c, rank) {
      assert Linked(nodes[c]) && ParentOk(nodes, c, rank);
    }
  }

  lemma {:induction false} Touch(s: State, i: nat, n: Node)
    requires Inv(s) && i < |s.nodes| && SameLinks(n, s.nodes[i]) && NodeOk(n, i, |s.nodes|)
    requires i == 0 ==> n == FREE
    ensures Inv(s.(nodes := s.nodes[i := n]))
  {
    var s' := s.(nodes := s.nodes[i := n]);
    forall j | 0 <= j < |s.nodes| ensures Count(s'.nodes, j) == Count(s.nodes, j) {
      CountSet(s.nodes, i, n, j);
    }
    var rank :| Tree(s.nodes, rank);
    TreeSame(s.nodes, s'.nodes, rank);
  }

  /** What a directory without links names counts for nothing, and nothing names what has no count. */
  lemma {:induction false} Freed(s: State, i: nat)
    requires Inv(s) && 0 < i < |s.nodes| && s.nodes[i].nlink == 0
    ensures Count(s.nodes, i) == 0 && s.linking[i] == 0
    ensures Inv(s.(nodes := s.nodes[i := FREE]))
  {
    hide Tree, Count, DirOk;
    var s' := s.(nodes := s.nodes[i := FREE]);
    var rank :| Tree(s.nodes, rank);
    FreedTree(s.nodes, rank, i);
    forall j | 0 <= j < |s.nodes| ensures Count(s'.nodes, j) == Count(s.nodes, j) {
      CountSet(s.nodes, i, FREE, j);
    }
  }

  lemma FreedTree(nodes: seq<Node>, rank: seq<nat>, i: nat)
    requires Tree(nodes, rank) && 0 < i < |nodes| && nodes[i].nlink == 0
    ensures i != ROOT && Tree(nodes[i := FREE], rank)
  {
    var nodes' := nodes[i := FREE];
    forall d, k | 0 <= d < |nodes| && Linked(nodes'[d]) && 2 <= k < |nodes'[d].ents| ensures EntryOk(nodes', d, k) {
      assert Linked(nodes[d]) && EntryOk(nodes, d, k);
    }
    forall c | 0 <= c < |nodes| && Linked(nodes'[c]) ensures ParentOk(nodes', c, rank) {
      assert Linked(nodes[c]) && ParentOk(nodes, c, rank);
    }
  }

  lemma PutKeeps(s: State, i: nat)
    requires Inv(s) && Held(s, i)
    ensures Inv(s.(nodes := PutAt(s.nodes, i)))
  {
    assert i != 0 && NodeOk(s.nodes[i], i, |s.nodes|);
    var n := s.nodes[i];
    if n.valid && n.nlink == 0 && n.ref == 1 {
      Freed(s, i);
    } else {
      Touch(s, i, Put(n));
    }
  }

  /** b is a with e entered as entry k. */
  ghost predicate Entered(a: seq<Entry>, b: seq<Entry>, k: nat, e: Entry) {
    && 2 <= k < |b| && b[k] == e && |a| <= |b|
    && (forall j | 0 <= j < |b| && j != k :: j < |a| && b[j] == a[j])
    && (k < |a| ==> a[k].inum == 0)
  }

  /** Entering a new name in a directory. */
  lemma EnterIs(n: Node, d: nat, size: nat, e: Entry)
    requires DirOk(n, d, size) && d != 0 && e.inum != 0 && Find(n.ents, e.name) == |n.ents|
    ensures e.name != DOT && Entered(n.ents, Enter(n.ents, e), Unused(n.ents), e)
    ensures forall i :: CountIn(Enter(n.ents, e), i) == CountIn(n.ents, i) + if i == e.inum then 1 else 0
  {
    var k := Unused(n.ents);
    forall i ensures CountIn(Enter(n.ents, e), i) == CountIn(n.ents, i) + if i == e.inum then 1 else 0 {
      if k < |n.ents| {
        CountInSet(n.ents, k, e, i);
      } else {
        CountInAdd(n.ents, e, i);
      }
    }
  }

  lemma CountInDots(i: nat, d: nat, j: nat)
    requires i != 0 && d != 0
    ensures CountIn(Enter(Enter([], Entry(i, DOT)), Entry(d, DOTDOT)), j) == if j == d then 1 else 0
    ensures Enter(Enter([], Entry(i, DOT)), Entry(d, DOTDOT)) == [Entry(i, DOT), Entry(d, DOTDOT)]
  {
    var one := Enter([], Entry(i, DOT));
    assert one == [Entry(i, DOT)];
    CountInAdd([], Entry(i, DOT), j);
    assert Unused(one) == 1;
    CountInAdd(one, Entry(d, DOTDOT), j);
  }

  /** No linked directory names an inode without a count. */
  lemma NoNames(s: State, i: nat)
    requires Inv(s) && 0 < i < |s.nodes| && Count(s.nodes, i) == 0
    ensures forall d, k | 0 <= d < |s.nodes| && Linked(s.nodes[d]) && 2 <= k < |s.nodes[d].ents| ::
      s.nodes[d].ents[k].inum != i
  {
    forall d, k | 0 <= d < |s.nodes| && Linked(s.nodes[d]) && 2 <= k < |s.nodes[d].ents|
      ensures s.nodes[d].ents[k].inum != i
    {
      CountNone(s.nodes, i);
      assert CountNode(s.nodes[d], i) == 0;
      CountInNone(s.nodes[d].ents, i);
      assert NodeOk(s.nodes[d], d, |s.nodes|);
      assert s.nodes[d].ents[0].inum != 0;
    }
  }

  lemma MadeCounts(s: State, d: nat, name: Name, kind: Kind)
    requires Inv(s) && Open(s, d) && s.nodes[d].nlink > 0 && !kind.Free?
    requires Find(s.nodes[d].ents, name) == |s.nodes[d].ents| && FreeNode(s.nodes, 1) < |s.nodes|
    ensures Counts(s.(nodes := MakeNode(s.nodes, d, name, kind)))
  {
    hide Tree, Count, CountIn, FreeNode, Find, Enter;
    var i, dp, s' := FreeNode(s.nodes, 1), s.nodes[d], s.(nodes := MakeNode(s.nodes, d, name, kind));
    assert s.nodes[i] == FREE;
    assert NodeOk(dp, d, |s.nodes|);
    EnterIs(dp, d, |s.nodes|, Entry(i, name));
    forall j | 0 <= j < |s.nodes| ensures s'.nodes[j].nlink == Count(s'.nodes, j) + s.linking[j] {
      CountInDots(i, d, j);
      CountSet(s.nodes, i, s'.nodes[i], j);
      CountSet(s.nodes[i := s'.nodes[i]], d, s'.nodes[d], j);
    }
  }

  lemma MadeNodes(s: State, d: nat, name: Name, kind: Kind)
    requires Inv(s) && Open(s, d) && s.nodes[d].nlink > 0 && !kind.Free?
    requires Find(s.nodes[d].ents, name) == |s.nodes[d].ents| && FreeNode(s.nodes, 1) < |s.nodes|
    ensures Nodes(s.(nodes := MakeNode(s.nodes, d, name, kind)))
  {
    hide Tree, Count, CountIn, FreeNode, Enter;
    var i, dp, s' := FreeNode(s.nodes, 1), s.nodes[d], s.(nodes := MakeNode(s.nodes, d, name, kind));
    assert s.nodes[i] == FREE;
    assert NodeOk(dp, d, |s.nodes|);
    EnterIs(dp, d, |s.nodes|, Entry(i, name));
    CountInDots(i, d, 0);
    assert i in s.linking ==> s.linking[i] > 0;
    assert NodeOk(s'.nodes[d], d, |s.nodes|);
  }

  /** nodes' has a new inode i, entered as entry k of d. */
  ghost predicate Made(nodes: seq<Node>, nodes': seq<Node>, i: nat, d: nat, k: nat) {
    && |nodes'| == |nodes| && i < |nodes| && d < |nodes| && i != d && nodes[i] == FREE
    && (forall j | 0 <= j < |nodes| && j != i && j != d :: nodes'[j] == nodes[j])
    && Linked(nodes[d]) && Linked(nodes'[d]) && k < |nodes'[d].ents| && nodes'[d].ents[k].inum == i
    && Entered(nodes[d].ents, nodes'[d].ents, k, nodes'[d].ents[k])
    && (nodes'[i].kind.Dir? ==> Linked(nodes'[i]) && |nodes'[i].ents| == 2 && Parent(nodes'[i]) == d)
    && (forall c, j | 0 <= c < |nodes| && Linked(nodes[c]) && 2 <= j < |nodes[c].ents| :: nodes[c].ents[j].inum != i)
  }

  lemma MadeIs(nodes: seq<Node>, d: nat, name: Name, kind: Kind)
    requires 0 < d < |nodes| && Linked(nodes[d]) && DirOk(nodes[d], d, |nodes|)
    requires Find(nodes[d].ents, name) == |nodes[d].ents|
    requires FreeNode(nodes, 1) < |nodes| && nodes[FreeNode(nodes, 1)] == FREE
    requires forall c, j | 0 <= c < |nodes| && Linked(nodes[c]) && 2 <= j < |nodes[c].ents| ::
      nodes[c].ents[j].inum != FreeNode(nodes, 1)
    ensures Made(nodes, MakeNode(nodes, d, name, kind), FreeNode(nodes, 1), d, Unused(nodes[d].ents))
  {
    hide CountIn, FreeNode, Enter, Find;
    var i := FreeNode(nodes, 1);
    EnterIs(nodes[d], d, |nodes|, Entry(i, name));
    CountInDots(i, d, 0);
    var nodes' := MakeNode(nodes, d, name, kind);
    assert nodes'[d].ents == Enter(nodes[d].ents, Entry(i, name));
    assert kind.Dir? ==> nodes'[i].ents == [Entry(i, DOT), Entry(d, DOTDOT)];
  }

  lemma MadeEntry(nodes: seq<Node>, nodes': seq<Node>, i: nat, d: nat, k: nat, rank: seq<nat>, c: nat, j: nat)
    requires Made(nodes, nodes', i, d, k) && Tree(nodes, rank) && i != 0 && i != ROOT
    requires c < |nodes'| && Linked(nodes'[c]) && 2 <= j < |nodes'[c].ents|
    ensures EntryOk(nodes', c, j)
  {
    hide ParentOk;
    var e := nodes'[c].ents[j];
    if c == d && j != k {
      assert e == nodes[d].ents[j];
      assert EntryOk(nodes, d, j);
    } else if c != d {
      assert c != i && EntryOk(nodes, c, j);
    }
  }

  lemma MadeParent(nodes: seq<Node>, nodes': seq<Node>, i: nat, d: nat, k: nat, rank: seq<nat>, c: nat)
    requires Made(nodes, nodes', i, d, k) && Tree(nodes, rank) && nodes[0] == FREE && i != ROOT
    requires c < |nodes'| && Linked(nodes'[c])
    ensures |nodes'[c].ents| >= 2 && ParentOk(nodes', c, rank[i := rank[d] + 1])
  {
    hide EntryOk;
    if c == i {
      assert nodes'[d].ents[k].inum == i;
    } else {
      assert Linked(nodes[c]) && c != 0;
      OldParent(nodes, rank, c);
      var p := Parent(nodes[c]);
      if c != ROOT {
        var j :| 2 <= j < |nodes[p].ents| && nodes[p].ents[j].inum == c;
        hide ParentOk, Tree;
        MadeStill(nodes, nodes', i, d, k, p, j);
        StillParent(nodes', rank[i := rank[d] + 1], c, p, j);
      }
    }
  }

  lemma OldParent(nodes: seq<Node>, rank: seq<nat>, c: nat)
    requires Tree(nodes, rank) && c < |nodes| && Linked(nodes[c])
    ensures |nodes[c].ents| >= 2 && ParentOk(nodes, c, rank)
  {
  }

  lemma MadeStill(nodes: seq<Node>, nodes': seq<Node>, i: nat, d: nat, k: nat, p: nat, j: nat)
    requires Made(nodes, nodes', i, d, k) && p < |nodes| && Linked(nodes[p]) && 2 <= j < |nodes[p].ents|
    requires nodes[p].ents[j].inum != 0
    ensures Linked(nodes'[p]) && j < |nodes'[p].ents| && nodes'[p].ents[j] == nodes[p].ents[j]
  {
  }

  lemma StillParent(nodes: seq<Node>, rank: seq<nat>, c: nat, p: nat, j: nat)
    requires c < |nodes| == |rank| && c != ROOT && |nodes[c].ents| >= 2 && Parent(nodes[c]) == p
    requires p < |nodes| && Linked(nodes[p]) && rank[p] < rank[c]
    requires 2 <= j < |nodes[p].ents| && nodes[p].ents[j].inum == c
    ensures ParentOk(nodes, c, rank)
  {
  }

  lemma MadeRanks(nodes: seq<Node>, nodes': seq<Node>, i: nat, d: nat, k: nat, rank: seq<nat>)
    requires Made(nodes, nodes', i, d, k) && Tree(nodes, rank) && nodes[0] == FREE && i != 0 && i != ROOT
    ensures Tree(nodes', rank[i := rank[d] + 1])
  {
    hide EntryOk, ParentOk;
    forall c, j | 0 <= c < |nodes'| && Linked(nodes'[c]) && 2 <= j < |nodes'[c].ents| ensures EntryOk(nodes', c, j) {
      MadeEntry(nodes, nodes', i, d, k, rank, c, j);
    }
    forall c | 0 <= c < |nodes'| && Linked(nodes'[c])
      ensures |nodes'[c].ents| >= 2 && ParentOk(nodes', c, rank[i := rank[d] + 1])
    {
      MadeParent(nodes, nodes', i, d, k, rank, c);
    }
  }

  lemma MadeTree(s: State, d: nat, name: Name, kind: Kind, rank: seq<nat>)
    requires Inv(s) && Open(s, d) && s.nodes[d].nlink > 0 && !kind.Free? && Tree(s.nodes, rank)
    requires Find(s.nodes[d].ents, name) == |s.nodes[d].ents| && FreeNode(s.nodes, 1) < |s.nodes|
    ensures exists rank' :: Tree(MakeNode(s.nodes, d, name, kind), rank')
  {
    hide Count, CountIn, FreeNode, Enter, Find, EntryOk, ParentOk, MakeNode, Made;
    var i, dp := FreeNode(s.nodes, 1), s.nodes[d];
    assert s.nodes[i] == FREE && i != ROOT;
    assert NodeOk(dp, d, |s.nodes|);
    NoNames(s, i);
    MadeIs(s.nodes, d, name, kind);
    MadeRanks(s.nodes, MakeNode(s.nodes, d, name, kind), i, d, Unused(dp.ents), rank);
  }

  // Changing an entry that does not name a directory ------------------------------------------

  /** n differs from directory d only in entry k, which names no directory in either. */
  ghost predicate FileEntry(nodes: seq<Node>, d: nat, n: Node, k: nat) {
    && d < |nodes| && Linked(nodes[d]) && Linked(n) && 2 <= k < |n.ents| && |nodes[d].ents| <= |n.ents|
    && (forall j | 0 <= j < |n.ents| && j != k :: j < |nodes[d].ents| && n.ents[j] == nodes[d].ents[j])
    && NoDir(nodes, n.ents[k].inum) && (k < |nodes[d].ents| ==> NoDir(nodes, nodes[d].ents[k].inum))
  }

  predicate NoDir(nodes: seq<Node>, i: nat) {
    i < |nodes| && !nodes[i].kind.Dir?
  }

  lemma FileEntryTree(nodes: seq<Node>, rank: seq<nat>, d: nat, n: Node, k: nat)
    requires Tree(nodes, rank) && FileEntry(nodes, d, n, k)
    ensures Tree(nodes[d := n], rank)
  {
    var nodes' := nodes[d := n];
    hide ParentOk;
    forall c, j | 0 <= c < |nodes| && Linked(nodes'[c]) && 2 <= j < |nodes'[c].ents| ensures EntryOk(nodes', c, j) {
      if c != d || j != k {
        assert nodes'[c].ents[j] == nodes[c].ents[j];
        assert EntryOk(nodes, c, j);
      }
    }
    hide EntryOk;
    forall c | 0 <= c < |nodes| && Linked(nodes'[c]) ensures ParentOk(nodes', c, rank) {
      FileEntryParent(nodes, rank, d, n, k, c);
    }
  }

  lemma FileEntryParent(nodes: seq<Node>, rank: seq<nat>, d: nat, n: Node, k: nat, c: nat)
    requires Tree(nodes, rank) && FileEntry(nodes, d, n, k) && c < |nodes| && Linked(nodes[c])
    ensures |nodes[d := n][c].ents| >= 2 && ParentOk(nodes[d := n], c, rank)
  {
    OldParent(nodes, rank, c);
    if c != ROOT {
      var p := Parent(nodes[c]);
      var j :| 2 <= j < |nodes[p].ents| && nodes[p].ents[j].inum == c;
      assert p == d ==> j != k && n.ents[j] == nodes[d].ents[j];
      StillParent(nodes[d := n], rank, c, p, j);
    }
  }

  lemma FileTree(nodes: seq<Node>, rank: seq<nat>, i: nat, n: Node)
    requires Tree(nodes, rank) && NoDir(nodes, i) && !n.kind.Dir?
    ensures Tree(nodes[i := n], rank)
  {
    var nodes' := nodes[i := n];
    forall d, k | 0 <= d < |nodes| && Linked(nodes'[d]) && 2 <= k < |nodes'[d].ents| ensures EntryOk(nodes', d, k) {
      assert Linked(nodes[d]) && EntryOk(nodes, d, k);
    }
    forall c | 0 <= c < |nodes| && Linked(nodes'[c]) ensures ParentOk(nodes', c, rank) {
      assert Linked(nodes[c]) && ParentOk(nodes, c, rank);
    }
  }

  /** link entered its name. */
  lemma {:induction false} EnteredKeeps(s: State, i: nat, d: nat, name: Name)
    requires Inv(s) && s.linking[i] > 0 && Open(s, d) && s.nodes[d].nlink > 0
    requires Find(s.nodes[d].ents, name) == |s.nodes[d].ents|
    ensures 0 < i < |s.nodes| && i != d
    ensures var dp := s.nodes[d];
      Inv(State(s.nodes[d := dp.(ents := Enter(dp.ents, Entry(i, name)), valid := true)], s.linking - multiset{i}))
  {
    hide Count, CountIn, Enter, Find, Tree;
    assert i in s.linking;
    var dp := s.nodes[d];
    var n := dp.(ents := Enter(dp.ents, Entry(i, name)), valid := true);
    assert NodeOk(dp, d, |s.nodes|);
    EnterIs(dp, d, |s.nodes|, Entry(i, name));
    var s' := State(s.nodes[d := n], s.linking - multiset{i});
    forall j | 0 <= j < |s.nodes| ensures s'.nodes[j].nlink == Count(s'.nodes, j) + s'.linking[j] {
      CountSet(s.nodes, d, n, j);
    }
    var rank :| Tree(s.nodes, rank);
    EnteredEntry(s.nodes, d, i, name);
    FileEntryTree(s.nodes, rank, d, n, Unused(dp.ents));
    hide FileEntry, Empty;
    assert NodeOk(n, d, |s.nodes|) by { EnteredOk(dp, d, |s.nodes|, Entry(i, name)); }
  }

  lemma EnteredEntry(nodes: seq<Node>, d: nat, i: nat, name: Name)
    requires 0 < d < |nodes| && 0 < i < |nodes| && Linked(nodes[d]) && DirOk(nodes[d], d, |nodes|)
    requires NoDir(nodes, i) && nodes[0] == FREE && Find(nodes[d].ents, name) == |nodes[d].ents|
    ensures var dp := nodes[d];
      FileEntry(nodes, d, dp.(ents := Enter(dp.ents, Entry(i, name)), valid := true), Unused(dp.ents))
  {
    hide Enter, CountIn, Find;
    EnterIs(nodes[d], d, |nodes|, Entry(i, name));
  }

  lemma EnteredOk(n: Node, d: nat, size: nat, e: Entry)
    requires DirOk(n, d, size) && d != 0 && e.inum != 0 && Find(n.ents, e.name) == |n.ents| && n.nlink > 0
    ensures DirOk(n.(ents := Enter(n.ents, e), valid := true), d, size)
  {
    hide Enter, CountIn;
    EnterIs(n, d, size, e);
  }

  /** Count one link more or one link less of a file, or of a link being made. */
  lemma {:induction false} Relinked(s: State, i: nat, n: Node, linking: multiset<nat>)
    requires Inv(s) && 0 < i < |s.nodes| && !s.nodes[i].kind.Dir? && !s.nodes[i].kind.Free?
    requires n == s.nodes[i].(nlink := n.nlink, valid := true) && n.ref > 0
    requires linking == if n.nlink > s.nodes[i].nlink then s.linking + multiset{i} else s.linking - multiset{i}
    requires n.nlink == s.nodes[i].nlink + 1 || (n.nlink == s.nodes[i].nlink - 1 && s.linking[i] > 0)
    ensures Inv(State(s.nodes[i := n], linking))
  {
    hide Tree;
    var s' := State(s.nodes[i := n], linking);
    forall j | 0 <= j < |s.nodes| ensures s'.nodes[j].nlink == Count(s'.nodes, j) + s'.linking[j] {
      CountSet(s.nodes, i, n, j);
    }
    var rank :| Tree(s.nodes, rank);
    FileTree(s.nodes, rank, i, n);
  }

  // Unlinking -----------------------------------------------------------------------------------

  /** Entry k of linked directory d names i. */
  predicate EntryOf(nodes: seq<Node>, d: nat, k: nat, i: nat) {
    d < |nodes| && Linked(nodes[d]) && 2 <= k < |nodes[d].ents| && nodes[d].ents[k].inum == i && 0 < i < |nodes|
  }

  /** A directory's entries by position: only the first is named ".". */
  lemma NamesAt(n: Node, d: nat, size: nat, k: nat, c: nat)
    requires DirOk(n, d, size) && d != 0 && k < |n.ents| && c != 0
    ensures Names(n.ents[k], c) <==> k > 0 && n.ents[k].inum == c
  {
  }

  /** What is named has a count: the panic "unlink: nlink < 1" cannot happen. */
  lemma {:induction false} NamedCounts(s: State, d: nat, k: nat, i: nat)
    requires Inv(s) && EntryOf(s.nodes, d, k, i)
    ensures s.nodes[i].nlink >= 1 && !s.nodes[i].kind.Free?
  {
    hide Tree, Count, CountIn;
    assert NodeOk(s.nodes[d], d, |s.nodes|) && NodeOk(s.nodes[i], i, |s.nodes|);
    NamesAt(s.nodes[d], d, |s.nodes|, k, i);
    CountInNone(s.nodes[d].ents, i);
    CountNone(s.nodes, i);
    assert CountNode(s.nodes[d], i) > 0;
  }

  /** An empty directory has no entry that leads to a linked directory. */
  lemma EmptyIsLeaf(nodes: seq<Node>, rank: seq<nat>, i: nat, c: nat)
    requires Tree(nodes, rank) && i < |nodes| && Empty(nodes[i].ents) && i != ROOT
    requires c < |nodes| && Linked(nodes[c]) && c != 0
    ensures |nodes[c].ents| >= 2 && Parent(nodes[c]) != i
  {
    OldParent(nodes, rank, c);
  }

  /** Nothing but its entry in d names an empty directory. */
  lemma {:induction false} EmptyOnce(s: State, rank: seq<nat>, d: nat, k: nat, i: nat)
    requires Inv(s) && Tree(s.nodes, rank) && EntryOf(s.nodes, d, k, i)
    requires s.nodes[i].kind.Dir? && Empty(s.nodes[i].ents)
    ensures Count(s.nodes, i) == 1
  {
    hide Count, CountIn, Empty, ParentOk;
    assert EntryOk(s.nodes, d, k);
    forall j | 0 <= j < |s.nodes| && j != d ensures CountNode(s.nodes[j], i) == 0 {
      if Linked(s.nodes[j]) {
        CountInNone(s.nodes[j].ents, i);
        assert NodeOk(s.nodes[j], j, |s.nodes|);
        EmptyIsLeaf(s.nodes, rank, i, j);
        forall x | 0 <= x < |s.nodes[j].ents| ensures !Names(s.nodes[j].ents[x], i) {
          NamesAt(s.nodes[j], j, |s.nodes|, x, i);
          if x >= 2 { assert EntryOk(s.nodes, j, x); }
        }
      }
    }
    CountOne(s.nodes, d, i);
    assert NodeOk(s.nodes[d], d, |s.nodes|);
    EmptyIsLeaf(s.nodes, rank, i, d);
    forall x | 0 <= x < |s.nodes[d].ents| ensures Names(s.nodes[d].ents[x], i) <==> x == k {
      NamesAt(s.nodes[d], d, |s.nodes|, x, i);
    }
    CountInOne(s.nodes[d].ents, k, i);
  }

  /** The parent of an empty directory is named by it and by one more. */
  lemma {:induction false} ParentTwice(s: State, rank: seq<nat>, d: nat, k: nat, i: nat)
    requires Inv(s) && Tree(s.nodes, rank) && EntryOf(s.nodes, d, k, i)
    requires s.nodes[i].kind.Dir? && Empty(s.nodes[i].ents)
    ensures Count(s.nodes, d) >= 2 && i != d
  {
    hide Count, CountIn, Empty;
    assert EntryOk(s.nodes, d, k);
    assert NodeOk(s.nodes[d], d, |s.nodes|) && NodeOk(s.nodes[i], i, |s.nodes|);
    OldParent(s.nodes, rank, i);
    NamesAt(s.nodes[i], i, |s.nodes|, 1, d);
    CountInNone(s.nodes[i].ents, d);
    OldParent(s.nodes, rank, d);
    var p := Parent(s.nodes[d]);
    if d == ROOT {
      NamesAt(s.nodes[d], d, |s.nodes|, 1, d);
    } else {
      var x :| 2 <= x < |s.nodes[p].ents| && s.nodes[p].ents[x].inum == d;
      assert NodeOk(s.nodes[p], p, |s.nodes|);
      NamesAt(s.nodes[p], p, |s.nodes|, x, d);
    }
    CountInNone(s.nodes[p].ents, d);
    EmptyIsLeaf(s.nodes, rank, i, d);
    CountTwo(s.nodes, i, p, d);
  }

  lemma ErasedOk(n: Node, d: nat, size: nat, k: nat, nlink: int)
    requires DirOk(n, d, size) && 2 <= k < |n.ents| && n.ents[k].inum != 0 && d != 0
    ensures DirOk(n.(ents := n.ents[k := UNUSED], nlink := if nlink > 0 then nlink else 1), d, size)
    ensures forall j | j != 0 ::
      CountIn(n.ents[k := UNUSED], j) == CountIn(n.ents, j) - if j == n.ents[k].inum then 1 else 0
  {
    forall j | j != 0
      ensures CountIn(n.ents[k := UNUSED], j) == CountIn(n.ents, j) - if j == n.ents[k].inum then 1 else 0
    {
      CountInSet(n.ents, k, UNUSED, j);
    }
  }

  lemma {:induction false} ErasedFile(s: State, d: nat, k: nat, i: nat)
    requires Inv(s) && EntryOf(s.nodes, d, k, i) && !s.nodes[i].kind.Dir?
    requires s.nodes[i].ref > 0 && s.nodes[i].valid
    ensures Inv(s.(nodes := Erase(s.nodes, d, k, i)))
  {
    hide Count, CountIn, Tree, DirOk, Empty;
    NamedCounts(s, d, k, i);
    var n, m := s.nodes[d].(ents := s.nodes[d].ents[k := UNUSED]), s.nodes[i].(nlink := s.nodes[i].nlink - 1);
    var s' := s.(nodes := s.nodes[d := n][i := m]);
    assert NodeOk(s.nodes[d], d, |s.nodes|) && NodeOk(s.nodes[i], i, |s.nodes|);
    ErasedOk(s.nodes[d], d, |s.nodes|, k, n.nlink);
    forall j | 0 <= j < |s.nodes| ensures s'.nodes[j].nlink == Count(s'.nodes, j) + s'.linking[j] {
      CountSet(s.nodes, d, n, j);
      CountSet(s.nodes[d := n], i, m, j);
      if j == 0 { CountZero(s.nodes, d, k); }
    }
    var rank :| Tree(s.nodes, rank);
    FileEntryTree(s.nodes, rank, d, n, k);
    FileTree(s.nodes[d := n], rank, i, m);
    assert Erase(s.nodes, d, k, i) == s'.nodes;
  }

  lemma CountZero(nodes: seq<Node>, d: nat, k: nat)
    requires d < |nodes| && k < |nodes[d].ents|
    ensures CountIn(nodes[d].ents[k := UNUSED], 0) == CountIn(nodes[d].ents, 0)
  {
    CountInNone(nodes[d].ents[k := UNUSED], 0);
    CountInNone(nodes[d].ents, 0);
  }

  lemma {:induction false} EmptyNames(n: Node, i: nat, size: nat, j: nat)
    requires DirOk(n, i, size) && i != 0 && Empty(n.ents)
    ensures CountIn(n.ents, j) == if j == Parent(n) then 1 else 0
  {
    CountInNone(n.ents, j);
    if j == Parent(n) {
      assert forall x | 0 <= x < |n.ents| && x != 1 :: !Names(n.ents[x], j);
      CountInOne(n.ents, 1, j);
    }
  }

  lemma {:induction false} ErasedDir(s: State, d: nat, k: nat, i: nat)
    requires Inv(s) && EntryOf(s.nodes, d, k, i) && s.nodes[i].kind.Dir? && Empty(s.nodes[i].ents)
    requires s.nodes[i].ref > 0 && s.nodes[i].valid
    ensures Inv(s.(nodes := Erase(s.nodes, d, k, i)))
  {
    hide Count, CountIn, Tree, DirOk, Empty;
    var rank :| Tree(s.nodes, rank);
    EmptyOnce(s, rank, d, k, i);
    ParentTwice(s, rank, d, k, i);
    assert s.linking[i] == 0 && s.linking[d] == 0 by {
      assert i !in s.linking && d !in s.linking;
    }
    var n := s.nodes[d].(ents := s.nodes[d].ents[k := UNUSED], nlink := s.nodes[d].nlink - 1);
    var m := s.nodes[i].(nlink := 0);
    var s' := s.(nodes := s.nodes[d := n][i := m]);
    assert Erase(s.nodes, d, k, i) == s'.nodes;
    assert NodeOk(s.nodes[d], d, |s.nodes|) && NodeOk(s.nodes[i], i, |s.nodes|);
    ErasedOk(s.nodes[d], d, |s.nodes|, k, n.nlink);
    ErasedTree(s.nodes, rank, d, k, i);
    assert DirOk(m, i, |s.nodes|) by { StillOk(s.nodes[i], i, |s.nodes|); }
    forall j | 0 <= j < |s.nodes| ensures s'.nodes[j].nlink == Count(s'.nodes, j) + s'.linking[j] {
      CountSet(s.nodes, d, n, j);
      CountSet(s.nodes[d := n], i, m, j);
      EmptyNames(s.nodes[i], i, |s.nodes|, j);
      if j == 0 { CountZero(s.nodes, d, k); }
    }
  }

  lemma StillOk(n: Node, i: nat, size: nat)
    requires DirOk(n, i, size) && Empty(n.ents)
    ensures DirOk(n.(nlink := 0), i, size)
  {
  }

  lemma ErasedTree(nodes: seq<Node>, rank: seq<nat>, d: nat, k: nat, i: nat)
    requires Tree(nodes, rank) && EntryOf(nodes, d, k, i) && nodes[i].kind.Dir? && Empty(nodes[i].ents)
    requires d != i && nodes[d].nlink >= 2 && nodes[i].nlink == 1 && d != 0 && nodes[0] == FREE
    ensures |nodes[i].ents| >= 2 && Parent(nodes[i]) == d
    ensures Tree(Erase(nodes, d, k, i), rank)
  {
    var nodes' := Erase(nodes, d, k, i);
    assert EntryOk(nodes, d, k);
    forall c, j | 0 <= c < |nodes| && Linked(nodes'[c]) && 2 <= j < |nodes'[c].ents| ensures EntryOk(nodes', c, j) {
      assert EntryOk(nodes, c, j);
    }
    forall c | 0 <= c < |nodes| && Linked(nodes'[c]) ensures ParentOk(nodes', c, rank) {
      ErasedParent(nodes, rank, d, k, i, c);
    }
  }

  lemma ErasedParent(nodes: seq<Node>, rank: seq<nat>, d: nat, k: nat, i: nat, c: nat)
    requires Tree(nodes, rank) && EntryOf(nodes, d, k, i) && nodes[i].kind.Dir? && Empty(nodes[i].ents)
    requires d != i && nodes[d].nlink >= 2 && nodes[i].nlink == 1 && c < |nodes| && Linked(nodes[c]) && c != i && c != 0
    ensures |Erase(nodes, d, k, i)[c].ents| >= 2 && ParentOk(Erase(nodes, d, k, i), c, rank)
  {
    hide EntryOk;
    OldParent(nodes, rank, c);
    if c != ROOT {
      var p := Parent(nodes[c]);
      var j :| 2 <= j < |nodes[p].ents| && nodes[p].ents[j].inum == c;
      hide Tree, ParentOk;
      StillParent(Erase(nodes, d, k, i), rank, c, p, j);
    }
  }

  // All steps -------------------------------------------------------------------------------------

  /** A name is entered in a directory that is itself unlinked. */
  predicate EntersUnlinked(s: State, step: Step)
    requires Enabled(s, step)
  {
    match step
    case Create(d, name, _) => Find(s.nodes[d].ents, name) == |s.nodes[d].ents| && s.nodes[d].nlink == 0
    case LinkEnter(_, d, name) => Find(s.nodes[d].ents, name) == |s.nodes[d].ents| && s.nodes[d].nlink == 0
    case _ => false
  }

  /** A freed inode is looked up, as the ".." of an unlinked directory can name one. */
  predicate FindsFreed(s: State, step: Step)
    requires Enabled(s, step)
  {
    match step
    case Lookup(d, k) => s.nodes[s.nodes[d].ents[k].inum].kind.Free?
    case _ => false
  }

  /** The steps that go wrong. */
  predicate Stray(s: State, step: Step)
    requires Enabled(s, step)
  {
    EntersUnlinked(s, step) || FindsFreed(s, step)
  }

  lemma LockKeeps(s: State, i: nat)
    requires Inv(s) && i < |s.nodes| && !s.nodes[i].kind.Free?
    ensures Inv(s.(nodes := LockAt(s.nodes, i)))
  {
    assert NodeOk(s.nodes[i], i, |s.nodes|);
    hide Inv, Tree, DirOk;
    Touch(s, i, Load(s.nodes[i]));
  }

  lemma GetKeeps(s: State, i: nat)
    requires Inv(s) && i < |s.nodes| && !s.nodes[i].kind.Free?
    ensures Inv(s.(nodes := GetAt(s.nodes, i)))
  {
    assert NodeOk(s.nodes[i], i, |s.nodes|);
    hide Inv, Tree, DirOk;
    Touch(s, i, Get(s.nodes[i]));
  }

  lemma HeldIsLive(s: State, i: nat)
    requires Inv(s) && Held(s, i)
    ensures i != 0 && !s.nodes[i].kind.Free?
  {
    assert NodeOk(s.nodes[i], i, |s.nodes|);
  }

  lemma {:induction false} CreateKeeps(s: State, d: nat, name: Name, kind: Kind)
    requires Inv(s) && Enabled(s, Create(d, name, kind)) && !Stray(s, Create(d, name, kind))
    ensures Inv(DoCreate(s, d, name, kind))
  {
    hide Tree, Counts, Nodes, FreeNode, Find, Enter;
    var dp := s.nodes[d];
    var k := Find(dp.ents, name);
    HeldIsLive(s, d);
    if k == |dp.ents| {
      NotNegative(s, d);
      MadeCounts(s, d, name, kind);
      MadeNodes(s, d, name, kind);
      var rank :| Tree(s.nodes, rank);
      MadeTree(s, d, name, kind, rank);
      var s1 := s.(nodes := MakeNode(s.nodes, d, name, kind));
      PutKeeps(s1, d);
    } else {
      hide Inv;
      var i := dp.ents[k].inum;
      LockKeeps(s, d);
      var s1 := s.(nodes := LockAt(s.nodes, d));
      GetKeeps(s1, i);
      var s2 := s1.(nodes := GetAt(s1.nodes, i));
      PutKeeps(s2, d);
      var s3 := s2.(nodes := PutAt(s2.nodes, d));
      HeldIsLive(s3, i);
      LockKeeps(s3, i);
      PutKeeps(s3.(nodes := LockAt(s3.nodes, i)), i);
    }
  }

  /** What create leaves when it makes an inode. */
  lemma MakesIs(nodes: seq<Node>, d: nat, name: Name, kind: Kind)
    requires d < |nodes| && FreeNode(nodes, 1) < |nodes| && FreeNode(nodes, 1) != d && nodes[d].ref > 0
    ensures var n, r, e := nodes[d], FreeNode(nodes, 1), Unused(nodes[d].ents);
      var links, entry := n.nlink + if kind.Dir? then 1 else 0, Entry(r, name);
      PutAt(MakeNode(nodes, d, name, kind), d) ==
        nodes[r := Node(kind, 1, if kind.Dir? then [Entry(r, DOT), Entry(d, DOTDOT)] else [], 1, true)]
             [d := if links == 0 && n.ref == 1 then FREE
                   else Node(n.kind, links, if e < |n.ents| then n.ents[e := entry] else n.ents + [entry],
                             n.ref - 1, true)]
  {
    hide Unused, Enter, FreeNode;
    var r, made := FreeNode(nodes, 1), MakeNode(nodes, d, name, kind);
    TwoEntered(Entry(r, DOT), Entry(d, DOTDOT));
    EnterPut(nodes[d].ents, Entry(r, name));
    assert made == nodes[r := made[r]][d := made[d]];
    assert made[r] == Node(kind, 1, if kind.Dir? then [Entry(r, DOT), Entry(d, DOTDOT)] else [], 1, true);
    hide MakeNode;
  }

  lemma EnterPut(ents: seq<Entry>, e: Entry)
    ensures var k := Unused(ents); Enter(ents, e) == if k < |ents| then ents[k := e] else ents + [e]
  {
  }

  lemma TwoEntered(a: Entry, b: Entry)
    requires a.inum != 0
    ensures Enter(Enter([], a), b) == [a, b]
  {
  }

  /** And when it finds one: no link and no entry changes, but what has no link left and is let go is freed. */
  lemma FindsIs(nodes: seq<Node>, d: nat, i: nat, keep: bool)
    requires d < |nodes| && i < |nodes| && nodes[d].ref > 0 && nodes[d].kind.Dir? && (keep ==> !nodes[i].kind.Dir?)
    ensures var got := LockAt(PutAt(GetAt(LockAt(nodes, d), i), d), i);
      var after := if keep then got else PutAt(got, i);
      && |got| == |after| == |nodes| && got[i].kind == nodes[i].kind
      && (keep ==> after[i] == nodes[i].(ref := nodes[i].ref + 1, valid := true))
      && forall j | 0 <= j < |nodes| ::
           || (nodes[j].nlink == 0 && after[j] == FREE)
           || after[j].(ref := 0, valid := true) == nodes[j].(ref := 0, valid := true)
  {
  }

  /** What link leaves when it enters the name. */
  lemma EntersIs(nodes: seq<Node>, i: nat, d: nat, e: Entry)
    requires d < |nodes| && i < |nodes| && i != d && nodes[d].ref > 0 && nodes[i].ref > 0
    requires nodes[d].nlink > 0 && nodes[i].nlink > 0
    ensures var n, m, k := nodes[d], nodes[i], Unused(nodes[d].ents);
      PutAt(PutAt(nodes[d := n.(ents := Enter(n.ents, e), valid := true)], d), i) ==
        nodes[d := Node(n.kind, n.nlink, if k < |n.ents| then n.ents[k := e] else n.ents + [e], n.ref - 1, true)]
             [i := m.(ref := m.ref - 1)]
  {
    hide Unused, Enter;
    EnterPut(nodes[d].ents, e);
  }

  lemma PeekIs(nodes: seq<Node>, t: nat)
    requires t < |nodes|
    ensures |PutAt(GetAt(nodes, t), t)| == |nodes|
    ensures forall j | 0 <= j < |nodes| :: PutAt(GetAt(nodes, t), t)[j].ref == nodes[j].ref
  {
  }

  /** And when the name is there already, of the inode to be linked. */
  lemma UndoesIs(nodes: seq<Node>, i: nat, d: nat, t: nat, linking: multiset<nat>)
    requires d < |nodes| && i < |nodes| && i != d && t != d && t < |nodes| && nodes[d].ref > 0 && nodes[i].ref > 0
    requires nodes[i].nlink > 1
    ensures var s := State(PutAt(PutAt(GetAt(LockAt(nodes, d), t), t), d), linking);
      Held(s, i) &&
      DoUndo(s, i).nodes[i] == nodes[i].(nlink := nodes[i].nlink - 1, ref := nodes[i].ref - 1, valid := true)
  {
  }

  lemma NotNegative(s: State, i: nat)
    requires Inv(s) && i < |s.nodes|
    ensures s.nodes[i].nlink >= 0
  {
  }

  lemma {:induction false} UnlinkKeeps(s: State, d: nat, name: Name)
    requires Inv(s) && Enabled(s, Unlink(d, name))
    ensures Inv(DoUnlink(s, d, name))
  {
    hide Tree, Counts, Nodes, Find, Empty, Erase;
    var k := Find(s.nodes[d].ents, name);
    HeldIsLive(s, d);
    LockKeeps(s, d);
    var s1 := s.(nodes := LockAt(s.nodes, d));
    if name == DOT || name == DOTDOT || k == |s.nodes[d].ents| {
      PutKeeps(s1, d);
    } else {
      var i := s.nodes[d].ents[k].inum;
      UnlinkTarget(s, d, name);
      GetKeeps(s1, i);
      var s2 := s1.(nodes := GetAt(s1.nodes, i));
      LockKeeps(s2, i);
      var s3 := s2.(nodes := LockAt(s2.nodes, i));
      if s3.nodes[i].kind.Dir? && !Empty(s3.nodes[i].ents) {
        PutKeeps(s3, i);
        PutKeeps(s3.(nodes := PutAt(s3.nodes, i)), d);
      } else {
        ErasedKeeps(s3, d, k, i);
        var s4 := s3.(nodes := Erase(s3.nodes, d, k, i));
        ErasedHeld(s3, d, k, i);
        PutKeeps(s4, d);
        PutKeeps(s4.(nodes := PutAt(s4.nodes, d)), i);
      }
    }
  }

  /** What unlink is about to remove: an entry of a linked directory, and not the directory itself. */
  lemma UnlinkTarget(s: State, d: nat, name: Name)
    requires Inv(s) && Open(s, d) && name != DOT && name != DOTDOT
    requires Find(s.nodes[d].ents, name) < |s.nodes[d].ents|
    ensures var k := Find(s.nodes[d].ents, name); var i := s.nodes[d].ents[k].inum;
      i < |s.nodes| && EntryOf(s.nodes, d, k, i) && i != d && !s.nodes[i].kind.Free?
  {
    var k := Find(s.nodes[d].ents, name);
    var i := s.nodes[d].ents[k].inum;
    assert NodeOk(s.nodes[d], d, |s.nodes|);
    hide Find, Count;
    assert k >= 2 && s.nodes[d].nlink > 0;
    var rank :| Tree(s.nodes, rank);
    assert EntryOk(s.nodes, d, k);
    NamedCounts(s, d, k, i);
    assert i == d ==> ParentOk(s.nodes, d, rank);
  }

  /** The directory keeps a link: its own entry, when it loses the ".." of an empty directory. */
  lemma {:induction false} UnlinkLeaves(s: State, d: nat, name: Name)
    requires Inv(s) && Open(s, d) && name != DOT && name != DOTDOT
    requires Find(s.nodes[d].ents, name) < |s.nodes[d].ents|
    ensures var i := s.nodes[d].ents[Find(s.nodes[d].ents, name)].inum;
      && i < |s.nodes| && i != d && i != 0 && s.nodes[i].nlink >= 1
      && (s.nodes[i].kind.Dir? && Empty(s.nodes[i].ents) ==> s.nodes[i].nlink == 1)
      && s.nodes[d].nlink > if s.nodes[i].kind.Dir? && Empty(s.nodes[i].ents) then 1 else 0
  {
    hide Find, Count, Empty, Tree, DirOk;
    var k := Find(s.nodes[d].ents, name);
    var i := s.nodes[d].ents[k].inum;
    UnlinkTarget(s, d, name);
    NamedCounts(s, d, k, i);
    if s.nodes[i].kind.Dir? && Empty(s.nodes[i].ents) {
      var rank :| Tree(s.nodes, rank);
      EmptyOnce(s, rank, d, k, i);
      ParentTwice(s, rank, d, k, i);
      assert i !in s.linking && d !in s.linking;
    }
  }

  /** ilock and iput of a directory. */
  lemma LeftIs(nodes: seq<Node>, d: nat)
    requires d < |nodes| && nodes[d].ref > 0
    ensures PutAt(LockAt(nodes, d), d) == nodes[d :=
      if nodes[d].nlink == 0 && nodes[d].ref == 1 then FREE else nodes[d].(ref := nodes[d].ref - 1, valid := true)]
  {
  }

  lemma SeenIs(nodes: seq<Node>, d: nat, i: nat)
    requires d < |nodes| && i < |nodes|
    ensures var seen := LockAt(GetAt(LockAt(nodes, d), i), i)[i];
      seen.kind == nodes[i].kind && seen.ents == nodes[i].ents && seen.nlink == nodes[i].nlink
  {
  }

  /** What unlink leaves of the inodes it removes an entry with. */
  lemma RemovedIs(nodes: seq<Node>, d: nat, k: nat, i: nat)
    requires d < |nodes| && k < |nodes[d].ents| && i < |nodes| && i != d && nodes[d].ref > 0
    requires nodes[d].nlink > if nodes[i].kind.Dir? then 1 else 0
    ensures var n, m := nodes[d], nodes[i];
      PutAt(PutAt(Erase(LockAt(GetAt(LockAt(nodes, d), i), i), d, k, i), d), i) ==
        nodes[d := Node(n.kind, n.nlink - if m.kind.Dir? then 1 else 0, n.ents[k := UNUSED], n.ref - 1, true)]
             [i := if m.nlink == 1 && m.ref == 0 then FREE else Node(m.kind, m.nlink - 1, m.ents, m.ref, true)]
  {
  }

  /** And when it refuses, of those it only looked at. */
  lemma RefusedIs(nodes: seq<Node>, d: nat, i: nat)
    requires d < |nodes| && i < |nodes| && i != d && nodes[d].ref > 0 && nodes[d].nlink > 0 && nodes[i].nlink > 0
    ensures PutAt(PutAt(LockAt(GetAt(LockAt(nodes, d), i), i), i), d) ==
      nodes[d := nodes[d].(ref := nodes[d].ref - 1, valid := true)][i := nodes[i].(valid := true)]
  {
  }

  /** Where a directory of the invariant has a name, it has it once. */
  lemma FoundOnce(s: State, d: nat, name: Name, k: nat)
    requires Inv(s) && Open(s, d) && k < |s.nodes[d].ents|
    requires s.nodes[d].ents[k].inum != 0 && s.nodes[d].ents[k].name == name
    ensures k == Find(s.nodes[d].ents, name)
  {
    assert NodeOk(s.nodes[d], d, |s.nodes|);
    hide Find, Count;
  }

  lemma ErasedKeeps(s: State, d: nat, k: nat, i: nat)
    requires Inv(s) && EntryOf(s.nodes, d, k, i) && s.nodes[i].ref > 0 && s.nodes[i].valid
    requires s.nodes[i].kind.Dir? ==> Empty(s.nodes[i].ents)
    ensures Inv(s.(nodes := Erase(s.nodes, d, k, i)))
  {
    if s.nodes[i].kind.Dir? {
      ErasedDir(s, d, k, i);
    } else {
      ErasedFile(s, d, k, i);
    }
  }

  lemma ErasedHeld(s: State, d: nat, k: nat, i: nat)
    requires d < |s.nodes| && k < |s.nodes[d].ents| && i < |s.nodes| && i != d
    ensures var n := Erase(s.nodes, d, k, i);
      |n| == |s.nodes| && n[d].ref == s.nodes[d].ref && n[i].ref == s.nodes[i].ref
  {
  }

  /** iget and iput at once. */
  lemma PeekKeeps(s: State, t: nat)
    requires Inv(s) && t < |s.nodes|
    ensures Inv(s.(nodes := PutAt(GetAt(s.nodes, t), t)))
    ensures forall i | 0 <= i < |s.nodes| :: PutAt(GetAt(s.nodes, t), t)[i].ref == s.nodes[i].ref
  {
    assert NodeOk(s.nodes[t], t, |s.nodes|);
    hide Tree, Counts, DirOk;
    if s.nodes[t].kind.Free? {
      assert PutAt(GetAt(s.nodes, t), t) == s.nodes;
    } else {
      GetKeeps(s, t);
      PutKeeps(s.(nodes := GetAt(s.nodes, t)), t);
    }
  }

  lemma {:induction false} UndoKeeps(s: State, i: nat)
    requires Inv(s) && s.linking[i] > 0 && Held(s, i)
    ensures Inv(DoUndo(s, i))
  {
    hide Tree, Counts;
    assert i in s.linking;
    HeldIsLive(s, i);
    var n := s.nodes[i];
    Relinked(s, i, n.(nlink := n.nlink - 1, valid := true), s.linking - multiset{i});
    PutKeeps(State(s.nodes[i := n.(nlink := n.nlink - 1, valid := true)], s.linking - multiset{i}), i);
  }

  lemma {:induction false} EnterKeeps(s: State, i: nat, d: nat, name: Name)
    requires Inv(s) && Enabled(s, LinkEnter(i, d, name)) && !Stray(s, LinkEnter(i, d, name))
    ensures Inv(DoEnter(s, i, d, name))
  {
    hide Tree, Counts, Nodes, Find, Enter;
    var dp := s.nodes[d];
    var k := Find(dp.ents, name);
    HeldIsLive(s, d);
    if k == |dp.ents| {
      NotNegative(s, d);
      EnteredKeeps(s, i, d, name);
      var n := dp.(ents := Enter(dp.ents, Entry(i, name)), valid := true);
      var s1 := State(s.nodes[d := n], s.linking - multiset{i});
      PutKeeps(s1, d);
      PutKeeps(s1.(nodes := PutAt(s1.nodes, d)), i);
    } else {
      var t := dp.ents[k].inum;
      LockKeeps(s, d);
      var s1 := s.(nodes := LockAt(s.nodes, d));
      PeekKeeps(s1, t);
      var s3 := s1.(nodes := PutAt(GetAt(s1.nodes, t), t));
      PutKeeps(s3, d);
      UndoKeeps(s3.(nodes := PutAt(s3.nodes, d)), i);
    }
  }

  /** Every step keeps the invariant, but for the stray ones. */
  lemma {:induction false} StepKeeps(s: State, step: Step)
    requires Inv(s) && Enabled(s, step) && !Stray(s, step)
    ensures Inv(Next(s, step))
  {
    hide Tree, Counts, Find, Enter, Count;
    match step
    case GetRoot =>
      RootLive(s);
      GetKeeps(s, ROOT);
    case Lookup(d, k) =>
      HeldIsLive(s, d);
      LockKeeps(s, d);
      GetKeeps(s.(nodes := LockAt(s.nodes, d)), s.nodes[d].ents[k].inum);
    case Dup(i) =>
      assert NodeOk(s.nodes[i], i, |s.nodes|);
      Touch(s, i, s.nodes[i].(ref := s.nodes[i].ref + 1));
    case Lock(i) => LockKeeps(s, i);
    case Drop(i) => PutKeeps(s, i);
    case Create(d, name, kind) => CreateKeeps(s, d, name, kind);
    case Unlink(d, name) => UnlinkKeeps(s, d, name);
    case LinkCount(i) =>
      HeldIsLive(s, i);
      if s.nodes[i].kind.Dir? {
        LockKeeps(s, i);
        PutKeeps(s.(nodes := LockAt(s.nodes, i)), i);
      } else {
        Relinked(s, i, s.nodes[i].(valid := true, nlink := s.nodes[i].nlink + 1), s.linking + multiset{i});
      }
    case LinkEnter(i, d, name) => EnterKeeps(s, i, d, name);
    case LinkUndo(i) => UndoKeeps(s, i);
  }

  lemma RootLive(s: State)
    requires Inv(s)
    ensures !s.nodes[ROOT].kind.Free?
  {
  }

  // And the stray steps break it ---------------------------------------------------------------

  lemma {:induction false} StrayCreate(s: State, d: nat, name: Name, kind: Kind)
    requires Inv(s) && Enabled(s, Create(d, name, kind)) && Stray(s, Create(d, name, kind))
    ensures !Counts(DoCreate(s, d, name, kind))
  {
    hide Tree, Count, CountIn, Find, FreeNode, Enter;
    var i, dp := FreeNode(s.nodes, 1), s.nodes[d];
    var nodes' := MakeNode(s.nodes, d, name, kind);
    assert NodeOk(dp, d, |s.nodes|) && s.nodes[i] == FREE;
    HeldIsLive(s, d);
    EnterIs(dp, d, |s.nodes|, Entry(i, name));
    var q := if kind.Dir? then Parent(dp) else i;
    CountInDots(i, d, q);
    EmptyNames(dp, d, |s.nodes|, q);
    CountSet(s.nodes, i, nodes'[i], q);
    CountSet(s.nodes[i := nodes'[i]], d, nodes'[d], q);
    CountSet(nodes', d, Put(nodes'[d]), q);
    var s' := DoCreate(s, d, name, kind);
    assert s'.nodes[q].nlink != Count(s'.nodes, q) + s'.linking[q];
  }

  lemma {:induction false} StrayEnter(s: State, i: nat, d: nat, name: Name)
    requires Inv(s) && Enabled(s, LinkEnter(i, d, name)) && Stray(s, LinkEnter(i, d, name))
    ensures !Counts(DoEnter(s, i, d, name))
  {
    hide Tree, Count, CountIn, Find, Enter;
    var dp := s.nodes[d];
    assert i in s.linking;
    var n := dp.(ents := Enter(dp.ents, Entry(i, name)), valid := true);
    var nodes1 := s.nodes[d := n];
    CountSet(s.nodes, d, n, i);
    CountSet(nodes1, d, Put(n), i);
    var nodes2 := PutAt(nodes1, d);
    CountSet(nodes2, i, Put(nodes2[i]), i);
    var s' := DoEnter(s, i, d, name);
    assert s'.nodes[i].nlink != Count(s'.nodes, i) + s'.linking[i];
  }

  /**
   * Looking up a freed inode leaves every count right. What is wrong is that an inode is now referred to that has no
   * type, and locking it is the panic "ilock: no type".
   */
  lemma StrayLookup(s: State, d: nat, k: nat)
    requires Inv(s) && Enabled(s, Lookup(d, k)) && Stray(s, Lookup(d, k))
    ensures var s', i := Next(s, Lookup(d, k)), s.nodes[d].ents[k].inum;
      && Counts(s') && Held(s', i) && s'.nodes[i].kind.Free? && !Enabled(s', Lock(i))
    ensures !Inv(Next(s, Lookup(d, k)))
  {
    hide Tree, Counts, Find;
    var s', i := Next(s, Lookup(d, k)), s.nodes[d].ents[k].inum;
    LookupCounts(s, d, i);
    assert s'.nodes[i].ref == 1;
    assert !NodeOk(s'.nodes[i], i, |s.nodes|);
  }

  lemma LookupCounts(s: State, d: nat, i: nat)
    requires Counts(s) && d < |s.nodes| && i < |s.nodes|
    ensures Counts(s.(nodes := GetAt(LockAt(s.nodes, d), i)))
  {
    hide Count, CountIn;
    var nodes1 := LockAt(s.nodes, d);
    forall j | 0 <= j < |s.nodes| ensures Count(GetAt(nodes1, i), j) == Count(s.nodes, j) {
      CountSet(s.nodes, d, nodes1[d], j);
      CountSet(nodes1, i, Get(nodes1[i]), j);
    }
  }

  /** Exactly the steps that enter a name in an unlinked directory break the counts. */
  lemma {:induction false} CountsKeptIff(s: State, step: Step)
    requires Inv(s) && Enabled(s, step)
    ensures Counts(Next(s, step)) <==> !EntersUnlinked(s, step)
  {
    hide Nodes, Tree, Find, Count;
    if !Stray(s, step) {
      StepKeeps(s, step);
    } else if step.Create? {
      StrayCreate(s, step.d, step.name, step.kind);
    } else if step.LinkEnter? {
      StrayEnter(s, step.i, step.d, step.name);
    } else {
      StrayLookup(s, step.d, step.k);
    }
  }

  /** Exactly the stray steps break the invariant. */
  lemma {:induction false} KeptIff(s: State, step: Step)
    requires Inv(s) && Enabled(s, step)
    ensures Inv(Next(s, step)) <==> !Stray(s, step)
  {
    hide Counts, Nodes, Tree, Find;
    if !Stray(s, step) {
      StepKeeps(s, step);
    } else if step.Create? {
      StrayCreate(s, step.d, step.name, step.kind);
    } else if step.LinkEnter? {
      StrayEnter(s, step.i, step.d, step.name);
    } else {
      StrayLookup(s, step.d, step.k);
    }
  }

  // Runs ----------------------------------------------------------------------------------------

  /** Each step is possible and, if it uses a directory, finds it still linked. */
  predicate Legal(s: State, run: seq<Step>)
    decreases |run|
  {
    run == [] || (Enabled(s, run[0]) && !Stray(s, run[0]) && Legal(Next(s, run[0]), run[1..]))
  }

  function Exec(s: State, run: seq<Step>): State
    requires Legal(s, run)
    decreases |run|
  {
    if run == [] then s else Exec(Next(s, run[0]), run[1..])
  }

  lemma {:induction false} RunKeeps(s: State, run: seq<Step>)
    requires Inv(s) && Legal(s, run)
    ensures Inv(Exec(s, run))
    decreases |run|
  {
    if run != [] {
      StepKeeps(s, run[0]);
      RunKeeps(Next(s, run[0]), run[1..]);
    }
  }

  /** The root mkfs builds: its two entries, one for each file, and unused ones to the end of the block. */
  function RootEnts(names: seq<Name>, unused: nat): (ents: seq<Entry>)
    ensures |ents| == |names| + 2 + unused && ents[0] == Entry(ROOT, DOT) && ents[1] == Entry(ROOT, DOTDOT)
    ensures forall k | 2 <= k < |ents| :: ents[k] == if k < |names| + 2 then Entry(k, names[k - 2]) else UNUSED
  {
    [Entry(ROOT, DOT), Entry(ROOT, DOTDOT)] + seq(|names|, k requires 0 <= k < |names| => Entry(k + 2, names[k])) +
      seq(unused, _ => UNUSED)
  }

  /** The file system mkfs builds, with size inodes: the root directory and files of these names. */
  function Start(size: nat, names: seq<Name>, unused: nat): (s: State)
    requires |names| + 2 <= size
    ensures |s.nodes| == size
  {
    State(seq(size, i =>
      if i == ROOT then Node(Dir, 1, RootEnts(names, unused), 0, false)
      else if 2 <= i < |names| + 2 then Node(File, 1, [], 0, false)
      else FREE), multiset{})
  }

  /** The names mkfs should be given, which it does not check. */
  predicate Proper(names: seq<Name>) {
    && (forall j, k | 0 <= j < k < |names| :: names[j] != names[k])
    && (forall k | 0 <= k < |names| :: names[k] != DOT && names[k] != DOTDOT)
  }

  lemma RootCounts(names: seq<Name>, unused: nat, i: nat)
    requires Proper(names)
    ensures CountIn(RootEnts(names, unused), i) == if 1 <= i < |names| + 2 then 1 else 0
  {
    var ents := RootEnts(names, unused);
    hide CountIn;
    CountInNone(ents, i);
    if 1 <= i < |names| + 2 {
      CountInOne(ents, i, i);
    }
  }

  lemma ImproperRoot(names: seq<Name>, unused: nat, size: nat)
    requires DirOk(Node(Dir, 1, RootEnts(names, unused), 0, false), ROOT, size)
    ensures Proper(names)
  {
    var ents := RootEnts(names, unused);
    forall k | 0 <= k < |names| ensures names[k] == ents[k + 2].name && ents[k + 2].inum != 0 {
    }
  }

  lemma StartCounts(size: nat, names: seq<Name>, unused: nat)
    requires |names| + 2 <= size && Proper(names)
    ensures Counts(Start(size, names, unused))
  {
    hide Count, CountIn, RootEnts, Proper;
    var s := Start(size, names, unused);
    forall i | 0 <= i < size ensures s.nodes[i].nlink == Count(s.nodes, i) {
      CountOne(s.nodes, ROOT, i);
      RootCounts(names, unused, i);
    }
  }

  lemma StartNodes(size: nat, names: seq<Name>, unused: nat)
    requires |names| + 2 <= size && Proper(names)
    ensures Nodes(Start(size, names, unused))
  {
    hide RootEnts;
  }

  lemma StartTree(size: nat, names: seq<Name>, unused: nat)
    requires |names| + 2 <= size
    ensures Tree(Start(size, names, unused).nodes, seq(size, _ => 0))
  {
    hide RootEnts;
  }

  /** What mkfs builds is sound exactly when the names are distinct and neither "." nor "..". */
  lemma StartIs(size: nat, names: seq<Name>, unused: nat)
    requires |names| + 2 <= size
    ensures Inv(Start(size, names, unused)) <==> Proper(names)
  {
    hide Counts, Tree, DirOk, Proper;
    if Proper(names) {
      StartCounts(size, names, unused);
      StartNodes(size, names, unused);
      StartTree(size, names, unused);
    }
    var root := Start(size, names, unused).nodes[ROOT];
    if DirOk(root, ROOT, size) {
      ImproperRoot(names, unused, size);
    }
  }

  /** In every run from mkfs's file system: counts match entries, nothing used is freed or free, what
      has no links left is freed as soon as no one refers to it, and linked directories lead up to the
      root. */
  lemma {:induction false} LinkCounts(size: nat, names: seq<Name>, unused: nat, run: seq<Step>)
    requires |names| + 2 <= size && Proper(names) && Legal(Start(size, names, unused), run)
    ensures var s := Exec(Start(size, names, unused), run);
      && |s.nodes| == size
      && (forall i | 0 <= i < size :: s.nodes[i].nlink == Count(s.nodes, i) + s.linking[i])
      && (forall d, k |
            0 <= d < size && Linked(s.nodes[d]) && 2 <= k < |s.nodes[d].ents| && s.nodes[d].ents[k].inum != 0 ::
            s.nodes[d].ents[k].inum < size && !s.nodes[s.nodes[d].ents[k].inum].kind.Free?)
      && (forall i | 0 <= i < size :: s.nodes[i].kind.Free? <==>
            Count(s.nodes, i) == 0 && s.linking[i] == 0 && s.nodes[i].ref == 0)
      && exists rank :: Tree(s.nodes, rank)
  {
    var s0 := Start(size, names, unused);
    StartIs(size, names, unused);
    RunKeeps(s0, run);
    SameSize(s0, run);
    var s := Exec(s0, run);
    hide Count;
    forall d, k | 0 <= d < size && Linked(s.nodes[d]) && 2 <= k < |s.nodes[d].ents| && s.nodes[d].ents[k].inum != 0
      ensures s.nodes[d].ents[k].inum < size && !s.nodes[s.nodes[d].ents[k].inum].kind.Free?
    {
      var rank :| Tree(s.nodes, rank);
      assert EntryOk(s.nodes, d, k);
      NamedCounts(s, d, k, s.nodes[d].ents[k].inum);
    }
    forall i | 0 <= i < size ensures s.nodes[i].kind.Free? <==>
      Count(s.nodes, i) == 0 && s.linking[i] == 0 && s.nodes[i].ref == 0
    {
      assert NodeOk(s.nodes[i], i, size);
    }
  }

  lemma NextSize(s: State, step: Step)
    requires Enabled(s, step)
    ensures |Next(s, step).nodes| == |s.nodes|
  {
    hide DoCreate, DoUnlink, DoUndo, DoEnter;
  }

  lemma {:induction false} SameSize(s: State, run: seq<Step>)
    requires Legal(s, run)
    ensures |Exec(s, run).nodes| == |s.nodes|
    decreases |run|
  {
    hide Enabled, Stray, Next;
    if run != [] {
      NextSize(s, run[0]);
      SameSize(Next(s, run[0]), run[1..]);
    }
  }

  // A process that makes a directory, stays in it and removes it can then make a file in it.
  const RMDIR: seq<Step> := [GetRoot, GetRoot, Create(ROOT, "a", Dir), Unlink(ROOT, "a")]

  const ROOTDIR: seq<Entry> := [Entry(ROOT, DOT), Entry(ROOT, DOTDOT)]

  function AfterGets(): State {
    State([FREE, Node(Dir, 1, ROOTDIR, 2, false), FREE, FREE], multiset{})
  }

  function AfterMkdir(): State {
    State([FREE, Node(Dir, 2, ROOTDIR + [Entry(2, "a")], 1, true),
           Node(Dir, 1, [Entry(2, DOT), Entry(ROOT, DOTDOT)], 1, true), FREE], multiset{})
  }

  function AfterRmdir(): State {
    State([FREE, Node(Dir, 1, ROOTDIR + [UNUSED], 0, true),
           Node(Dir, 0, [Entry(2, DOT), Entry(ROOT, DOTDOT)], 1, true), FREE], multiset{})
  }

  lemma FindStep(ents: seq<Entry>, name: Name)
    requires ents != []
    ensures Find(ents, name) ==
      if ents[0].inum != 0 && ents[0].name == name then 0 else 1 + Find(ents[1..], name)
  {
  }

  lemma GetsRoot()
    ensures Next(Next(Start(4, [], 0), GetRoot), GetRoot) == AfterGets()
  {
    assert RootEnts([], 0) == ROOTDIR;
    assert Start(4, [], 0).nodes == [FREE, Node(Dir, 1, ROOTDIR, 0, false), FREE, FREE];
  }

  lemma MakesA()
    ensures var s, step := AfterGets(), Create(ROOT, "a", Dir);
      Enabled(s, step) && !Stray(s, step) && Next(s, step) == AfterMkdir()
  {
    var s := AfterGets();
    FindStep(ROOTDIR, "a");
    FindStep(ROOTDIR[1..], "a");
    assert Unused(ROOTDIR[1..]) == 1 && Unused(ROOTDIR) == 2;
    assert FreeNode(s.nodes, 1) == 2;
    CountInDots(2, ROOT, 0);
    hide Find, FreeNode, Unused, CountIn;
    var nodes := MakeNode(s.nodes, ROOT, "a", Dir);
    assert nodes[2] == AfterMkdir().nodes[2];
    assert PutAt(nodes, ROOT) == AfterMkdir().nodes;
  }

  lemma RemovesA()
    ensures var s, step := AfterMkdir(), Unlink(ROOT, "a");
      Enabled(s, step) && !Stray(s, step) && Next(s, step) == AfterRmdir()
  {
    var s := AfterMkdir();
    var ents := s.nodes[ROOT].ents;
    FindStep(ents, "a");
    FindStep(ents[1..], "a");
    FindStep(ents[1..][1..], "a");
    assert Find(ents, "a") == 2;
    var nodes := LockAt(GetAt(LockAt(s.nodes, ROOT), 2), 2);
    var erased := Erase(nodes, ROOT, 2, 2);
    assert erased[ROOT].ents == ROOTDIR + [UNUSED];
    assert PutAt(PutAt(erased, ROOT), 2) == AfterRmdir().nodes;
  }

  lemma StraysNow()
    ensures var s := AfterRmdir(); Enabled(s, Create(2, "f", File)) && Stray(s, Create(2, "f", File))
  {
    var ents := AfterRmdir().nodes[2].ents;
    FindStep(ents, "f");
    FindStep(ents[1..], "f");
    assert FreeNode(AfterRmdir().nodes, 1) == 3;
  }

  lemma GetsEnabled()
    ensures var s := Start(4, [], 0);
      && Enabled(s, GetRoot) && !Stray(s, GetRoot)
      && Enabled(Next(s, GetRoot), GetRoot) && !Stray(Next(s, GetRoot), GetRoot)
  {
  }

  lemma StrayHappens()
    ensures Legal(Start(4, [], 0), RMDIR)
    ensures var s := Exec(Start(4, [], 0), RMDIR);
      Enabled(s, Create(2, "f", File)) && Stray(s, Create(2, "f", File))
  {
    hide Next, Find, FreeNode, Enabled, Stray, Start, AfterGets, AfterMkdir, AfterRmdir;
    GetsEnabled();
    var s1 := Next(Start(4, [], 0), GetRoot);
    GetsRoot();
    MakesA();
    RemovesA();
    StraysNow();
    var r1 := RMDIR[1..];
    var r2 := r1[1..];
    var r3 := r2[1..];
    assert r3[1..] == [];
    assert Legal(AfterRmdir(), r3[1..]);
    assert Legal(AfterMkdir(), r3) && Exec(AfterMkdir(), r3) == AfterRmdir();
    assert Legal(AfterGets(), r2) && Exec(AfterGets(), r2) == AfterRmdir();
    assert Legal(s1, r1) && Exec(s1, r1) == AfterRmdir();
  }
}
