/** The code of fs.c and sysfile.c on inodes and directories, each method doing what its step does. */
module LinksCode {
  import opened Links

  class Icache {
    const node: array<Node>
    ghost var linking: multiset<nat>

    constructor (node: array<Node>)
      ensures this.node == node && linking == multiset{}
    {
      this.node, linking := node, multiset{};
    }

    ghost function Abs(): State
      reads this, node
    {
      State(node[..], linking)
    }

    method Iget(i: nat)
      requires i < node.Length
      modifies node
      ensures node[..] == GetAt(old(node[..]), i)
      ensures node[..] == old(node[..])
        [i := old(node[i]).(ref := old(node[i]).ref + 1, valid := old(node[i]).valid && old(node[i]).ref > 0)]
    {
      if node[i].ref > 0 {
        node[i] := node[i].(ref := node[i].ref + 1);
      } else {
        node[i] := node[i].(ref := 1, valid := false);
      }
    }

    method Ilock(i: nat)
      requires i < node.Length
      modifies node
      ensures node[..] == LockAt(old(node[..]), i) == old(node[..])[i := old(node[i]).(valid := true)]
    {
      if !node[i].valid {
        node[i] := node[i].(valid := true);
      }
    }

    method Iput(i: nat)
      requires i < node.Length && node[i].ref > 0
      modifies node
      ensures node[..] == PutAt(old(node[..]), i) && Abs() == Next(old(Abs()), Drop(i))
      ensures node[..] == old(node[..])[i :=
        if old(node[i]).valid && old(node[i]).nlink == 0 && old(node[i]).ref == 1 then FREE
        else old(node[i]).(ref := old(node[i]).ref - 1)]
    {
      if node[i].valid && node[i].nlink == 0 {
        var r := node[i].ref;
        if r == 1 {
          // truncate and free
          node[i] := node[i].(ents := []);
          node[i] := node[i].(kind := Free);
          node[i] := node[i].(valid := false);
        }
      }
      node[i] := node[i].(ref := node[i].ref - 1);
    }

    method DirLookup(d: nat, name: Name) returns (off: nat)
      requires d < node.Length
      ensures off == Find(node[d].ents, name)
    {
      off := 0;
      while off < |node[d].ents|
        invariant off <= |node[d].ents|
        invariant forall k | 0 <= k < off :: node[d].ents[k].inum == 0 || node[d].ents[k].name != name
      {
        if node[d].ents[off].inum != 0 && node[d].ents[off].name == name {
          return;
        }
        off := off + 1;
      }
    }

    /** Look for an unused entry and write the new one there. */
    method WriteEntry(d: nat, e: Entry)
      requires d < node.Length
      modifies node
      ensures node[..] == old(node[..])[d := old(node[d]).(ents := Enter(old(node[d]).ents, e))]
      ensures var ents := old(node[d]).ents; var k := Unused(ents);
        node[d].ents == if k < |ents| then ents[k := e] else ents + [e]
    {
      var off := 0;
      while off < |node[d].ents|
        invariant off <= |node[d].ents|
        invariant forall k | 0 <= k < off :: node[d].ents[k].inum != 0
      {
        if node[d].ents[off].inum == 0 {
          break;
        }
        off := off + 1;
      }
      assert off == Unused(node[d].ents);
      if off < |node[d].ents| {
        node[d] := node[d].(ents := node[d].ents[off := e]);
      } else {
        node[d] := node[d].(ents := node[d].ents + [e]);
      }
    }

    /** False if the name is present. */
    method DirLink(d: nat, name: Name, inum: nat) returns (ok: bool)
      requires d < node.Length
      requires var k := Find(node[d].ents, name); k < |node[d].ents| ==> node[d].ents[k].inum < node.Length
      modifies node
      ensures var dp := old(node[d]); var k := Find(dp.ents, name);
        && ok == (k == |dp.ents|)
        && node[..] == if ok then old(node[..])[d := dp.(ents := Enter(dp.ents, Entry(inum, name)))]
                       else PutAt(GetAt(old(node[..]), dp.ents[k].inum), dp.ents[k].inum)
      ensures ok ==> var ents := old(node[d]).ents; var k := Unused(ents);
        node[d].ents == if k < |ents| then ents[k := Entry(inum, name)] else ents + [Entry(inum, name)]
    {
      var k := DirLookup(d, name);
      if k < |node[d].ents| {
        var i := node[d].ents[k].inum;
        Iget(i);
        Iput(i);
        return false;
      }
      WriteEntry(d, Entry(inum, name));
      ok := true;
    }

    method IsDirEmpty(d: nat) returns (empty: bool)
      requires d < node.Length
      ensures empty == Empty(node[d].ents)
      ensures empty <==> !exists k | 2 <= k < |node[d].ents| :: node[d].ents[k].inum != 0
    {
      var off := 2;
      while off < |node[d].ents|
        invariant 2 <= off && forall k | 2 <= k < off && k < |node[d].ents| :: node[d].ents[k].inum == 0
      {
        if node[d].ents[off].inum != 0 {
          return false;
        }
        off := off + 1;
      }
      empty := true;
    }

    /** None is the panic "ialloc: no inodes". */
    method Ialloc(kind: Kind) returns (i: nat)
      requires 1 <= node.Length
      modifies node
      ensures i == FreeNode(old(node[..]), 1)
      ensures node[..] == if i < node.Length then old(node[..])[i := Node(kind, 0, [], 1, false)] else old(node[..])
    {
      i := 1;
      while i < node.Length
        invariant 1 <= i <= node.Length && node[..] == old(node[..])
        invariant forall j | 1 <= j < i :: !node[j].kind.Free?
      {
        if node[i].kind.Free? {
          node[i] := Node(kind, 0, [], 0, false);
          Iget(i);
          return;
        }
        i := i + 1;
      }
    }
  
    /** create, once nameiparent has found d. The result is the inode kept, 0 for none; `panic` is one
        of "create dots" and "create: dirlink". */
    method Create(d: nat, name: Name, kind: Kind) returns (r: nat, panic: bool)
      requires Enabled(Abs(), Step.Create(d, name, kind)) && d != 0
      modifies node
      ensures !panic && Abs() == Next(old(Abs()), Step.Create(d, name, kind))
      ensures var n := old(node[d]); var k := Find(n.ents, name);
        k < |n.ents| ==>
          && r == (if kind.File? && old(node[..])[n.ents[k].inum].kind.File? then n.ents[k].inum else 0)
          && (r != 0 ==> node[r] == old(node[..])[r].(ref := old(node[..])[r].ref + 1, valid := true))
          && forall j | 0 <= j < node.Length ::
               || node[j].(ref := 0, valid := true) == old(node[j]).(ref := 0, valid := true)
               || (old(node[j]).nlink == 0 && node[j] == FREE)
      ensures var n := old(node[d]); var e := Unused(n.ents); var links := n.nlink + if kind.Dir? then 1 else 0;
        Find(n.ents, name) == |n.ents| ==>
          && r == FreeNode(old(node[..]), 1) < node.Length && r != d
          && node[..] == old(node[..])
               [r := Node(kind, 1, if kind.Dir? then [Entry(r, "."), Entry(d, "..")] else [], 1, true)]
               [d := if links == 0 && n.ref == 1 then FREE
                     else Node(n.kind, links, if e < |n.ents| then n.ents[e := Entry(r, name)]
                                              else n.ents + [Entry(r, name)], n.ref - 1, true)]
    {
      hide Find, FreeNode, Unused, Enter, PutAt, GetAt, MakeNode;
      ghost var nodes := node[..];
      panic := false;
      Ilock(d);
      var off := DirLookup(d, name);
      if off < |node[d].ents| {
        var i := node[d].ents[off].inum;
        FindsIs(nodes, d, i, kind.File? && nodes[i].kind.File?);
        r := CreateFound(d, i, kind);
        return;
      }
      SameFree(nodes, d, 1);
      MakesIs(nodes, d, name, kind);
      r := Ialloc(kind);
      panic := CreateNew(d, r, name, kind);
      MadeHere(nodes, d, name, kind);
    }

    lemma MadeHere(nodes: seq<Node>, d: nat, name: Name, kind: Kind)
      requires d < |nodes| && FreeNode(nodes, 1) < |nodes| && FreeNode(nodes, 1) != d && nodes[d].ref > 0
      ensures var made := MakeNode(nodes, d, name, kind); |made| == |nodes| && made[d].ref > 0
      ensures var i, dp := FreeNode(nodes, 1), nodes[d].(valid := true);
        var dots := if kind.Dir? then Enter(Enter([], Entry(i, DOT)), Entry(d, DOTDOT)) else [];
        PutAt(LockAt(nodes, d)[i := Node(kind, 0, [], 1, false)][i := Node(kind, 1, dots, 1, true)]
          [d := dp.(nlink := dp.nlink + if kind.Dir? then 1 else 0, ents := Enter(dp.ents, Entry(i, name)))], d) ==
        PutAt(MakeNode(nodes, d, name, kind), d)
    {
      hide Enter, FreeNode, PutAt;
      var i, dp := FreeNode(nodes, 1), nodes[d].(valid := true);
      var dots := if kind.Dir? then Enter(Enter([], Entry(i, DOT)), Entry(d, DOTDOT)) else [];
      assert LockAt(nodes, d)[i := Node(kind, 0, [], 1, false)][i := Node(kind, 1, dots, 1, true)]
        [d := dp.(nlink := dp.nlink + if kind.Dir? then 1 else 0, ents := Enter(dp.ents, Entry(i, name)))] ==
        MakeNode(nodes, d, name, kind);
    }

    lemma SameFree(nodes: seq<Node>, d: nat, from: nat)
      requires from <= |nodes| && d < |nodes| && !nodes[d].kind.Free?
      ensures FreeNode(LockAt(nodes, d), from) == FreeNode(nodes, from)
      decreases |nodes| - from
    {
      if from < |nodes| {
        SameFree(nodes, d, from + 1);
      }
    }

    /** create from ialloc on: enter the new inode i, and "." and ".." in it. */
    method CreateNew(d: nat, i: nat, name: Name, kind: Kind) returns (panic: bool)
      requires d < node.Length && i < node.Length && d != i && node[d].ref > 0 && d != 0 && i != 0
      requires node[i] == Node(kind, 0, [], 1, false) && Find(node[d].ents, name) == |node[d].ents|
      modifies node
      ensures !panic
      ensures var dp := old(node[d]);
        var dots := if kind.Dir? then Enter(Enter([], Entry(i, DOT)), Entry(d, DOTDOT)) else [];
        node[..] == PutAt(old(node[..])[i := Node(kind, 1, dots, 1, true)]
          [d := dp.(nlink := dp.nlink + if kind.Dir? then 1 else 0, ents := Enter(dp.ents, Entry(i, name)))], d)
    {
      hide Next, Abs, Enabled, Enter, Unused, Find, GetAt;
      Ilock(i);
      node[i] := node[i].(nlink := 1);
      if kind.Dir? {
        var ok := MakeDots(d, i);
        if !ok {
          return true;
        }
      }
      var ok := DirLink(d, name, i);
      if !ok {
        return true;
      }
      Iput(d);
      panic := false;
    }

    /** The part of create for a directory: the link for "..", and the entries "." and "..". */
    method MakeDots(d: nat, i: nat) returns (ok: bool)
      requires d < node.Length && i < node.Length && d != i && i != 0 && node[i].ents == []
      modifies node
      ensures ok
      ensures node[..] == old(node[..])[d := old(node[d]).(nlink := old(node[d]).nlink + 1)]
        [i := old(node[i]).(ents := Enter(Enter([], Entry(i, DOT)), Entry(d, DOTDOT)))]
    {
      hide Enter, Unused, GetAt, PutAt;
      node[d] := node[d].(nlink := node[d].nlink + 1);
      ok := DirLink(i, DOT, i);
      EnterPut([], Entry(i, DOT));
      assert Find(node[i].ents, DOTDOT) == |node[i].ents|;
      if ok {
        ok := DirLink(i, DOTDOT, d);
      }
    }

    /** create when the name exists as inode i. */
    method CreateFound(d: nat, i: nat, kind: Kind) returns (r: nat)
      requires d < node.Length && i < node.Length && node[d].ref > 0
      modifies node
      ensures var nodes := LockAt(PutAt(GetAt(old(node[..]), i), d), i);
        && node[..] == (if kind.File? && nodes[i].kind.File? then nodes else PutAt(nodes, i))
        && r == if kind.File? && nodes[i].kind.File? then i else 0
    {
      Iget(i);
      Iput(d);
      Ilock(i);
      if kind.File? && node[i].kind.File? {
        return i;
      }
      Iput(i);
      r := 0;
    }
  
    /** unlink, once nameiparent has found d. `panic` is "unlink: nlink < 1". */
    method Unlink(d: nat, name: Name) returns (ok: bool, panic: bool, ghost k: nat)
      requires Inv(Abs()) && Enabled(Abs(), Step.Unlink(d, name))
      modifies node
      ensures !panic && Abs() == Next(old(Abs()), Step.Unlink(d, name)) && Inv(Abs())
      ensures ok <==> name != "." && name != ".." && exists x | 0 <= x < |old(node[d]).ents| ::
        var e := old(node[d]).ents[x];
        && e.name == name && 0 < e.inum < node.Length
        && !(old(node[..])[e.inum].kind.Dir? && exists y | 2 <= y < |old(node[..])[e.inum].ents| ::
               old(node[..])[e.inum].ents[y].inum != 0)
      ensures ok ==> k < |old(node[d]).ents| && old(node[d]).ents[k].name == name
      ensures ok ==> 0 < old(node[d]).ents[k].inum < node.Length && old(node[d]).ents[k].inum != d
      ensures ok ==> var n := old(node[d]); var i := n.ents[k].inum; var m := old(node[..])[i];
        node[..] == old(node[..])
          [d := Node(n.kind, n.nlink - if m.kind.Dir? then 1 else 0, n.ents[k := UNUSED], n.ref - 1, true)]
          [i := if m.nlink == 1 && m.ref == 0 then FREE else Node(m.kind, m.nlink - 1, m.ents, m.ref, true)]
      ensures ok ==> forall j | 0 <= j < |node[d].ents| && node[d].ents[j].inum != 0 :: node[d].ents[j].name != name
      ensures !ok ==> forall j | 0 <= j < node.Length && j != d ::
        node[j] == old(node[j]) || node[j] == old(node[j]).(valid := true)
      ensures !ok && old(node[d]).nlink == 0 && old(node[d]).ref == 1 ==> node[d] == FREE
      ensures !ok && !(old(node[d]).nlink == 0 && old(node[d]).ref == 1) ==>
        node[d] == old(node[d]).(ref := old(node[d]).ref - 1, valid := true)
    {
      hide Inv, Find, Erase, PutAt, GetAt;
      ghost var s := Abs();
      UnlinkKeeps(s, d, name);
      panic, k := false, Find(node[d].ents, name);
      forall x | 0 <= x < |node[d].ents| && node[d].ents[x].inum != 0 && node[d].ents[x].name == name ensures x == k {
        FoundOnce(s, d, name, x);
      }
      Ilock(d);
      if name == DOT || name == DOTDOT {
        Iput(d);
        LeftIs(s.nodes, d);
        return false, false, k;
      }
      var off := DirLookup(d, name);
      assert off == k && node[d].ents == s.nodes[d].ents;
      if off == |node[d].ents| {
        Iput(d);
        LeftIs(s.nodes, d);
        return false, false, k;
      }
      UnlinkTarget(s, d, name);
      UnlinkLeaves(s, d, name);
      var i := node[d].ents[off].inum;
      SeenIs(s.nodes, d, i);
      ok, panic := UnlinkFound(d, off, i);
      if ok {
        RemovedIs(s.nodes, d, off, i);
      } else {
        RefusedIs(s.nodes, d, i);
      }
    }

    method UnlinkFound(d: nat, off: nat, i: nat) returns (ok: bool, panic: bool)
      requires d < node.Length && i < node.Length && d != i && off < |node[d].ents|
      requires node[d].ref > 0 && node[i].nlink >= 1
      modifies node
      ensures !panic
      ensures var nodes := LockAt(GetAt(old(node[..]), i), i);
        && ok == !(old(node[i]).kind.Dir? && !Empty(old(node[i]).ents))
        && node[..] == if ok then PutAt(PutAt(Erase(nodes, d, off, i), d), i) else PutAt(PutAt(nodes, i), d)
    {
      hide Empty, Next, Abs, Enabled;
      Iget(i);
      Ilock(i);
      if node[i].nlink < 1 {
        return false, true;
      }
      panic := false;
      if node[i].kind.Dir? {
        var empty := IsDirEmpty(i);
        if !empty {
          Iput(i);
          Iput(d);
          return false, false;
        }
      }
      node[d] := node[d].(ents := node[d].ents[off := UNUSED]);
      if node[i].kind.Dir? {
        node[d] := node[d].(nlink := node[d].nlink - 1);
      }
      Iput(d);
      node[i] := node[i].(nlink := node[i].nlink - 1);
      Iput(i);
      ok := true;
    }

    /** link up to the first iunlock. */
    method LinkStart(i: nat) returns (ok: bool)
      requires Enabled(Abs(), LinkCount(i))
      modifies this`linking, node
      ensures Abs() == Next(old(Abs()), LinkCount(i)) && ok == !old(node[i]).kind.Dir?
      ensures ok ==> linking == old(linking) + multiset{i}
      ensures ok ==>
        node[..] == old(node[..])[i := old(node[i]).(nlink := old(node[i]).nlink + 1, valid := true)]
      ensures !ok ==> linking == old(linking)
    {
      Ilock(i);
      if node[i].kind.Dir? {
        Iput(i);
        return false;
      }
      node[i] := node[i].(nlink := node[i].nlink + 1);
      linking := linking + multiset{i};
      ok := true;
    }

    /** link from ilock(dp) on, and its label bad. */
    method LinkFinish(i: nat, d: nat, name: Name) returns (ok: bool)
      requires Enabled(Abs(), LinkEnter(i, d, name))
      modifies this`linking, node
      ensures Abs() == Next(old(Abs()), LinkEnter(i, d, name))
      ensures ok == (Find(old(node[d]).ents, name) == |old(node[d]).ents|) && linking == old(linking) - multiset{i}
      ensures var n, m := old(node[d]), old(node[i]); var e := Unused(n.ents);
        ok && n.nlink > 0 && m.nlink > 0 ==> node[..] == old(node[..])
          [d := Node(n.kind, n.nlink, if e < |n.ents| then n.ents[e := Entry(i, name)] else n.ents + [Entry(i, name)],
                     n.ref - 1, true)]
          [i := m.(ref := m.ref - 1)]
      ensures !ok && old(node[i]).nlink > 1 ==>
        node[i] == old(node[i]).(nlink := old(node[i]).nlink - 1, ref := old(node[i]).ref - 1, valid := true)
    {
      hide Find, Enter, Unused, PutAt, GetAt, Put;
      ghost var nodes, k := node[..], Find(node[d].ents, name);
      Ilock(d);
      ok := DirLink(d, name, i);
      assert ok ==>
        node[..] == nodes[d := nodes[d].(ents := Enter(nodes[d].ents, Entry(i, name)), valid := true)];
      if !ok {
        PeekIs(LockAt(nodes, d), nodes[d].ents[k].inum);
      }
      Iput(d);
      if !ok {
        if nodes[i].nlink > 1 {
          UndoesIs(nodes, i, d, nodes[d].ents[k].inum, linking);
        }
        LinkBad(i);
        return;
      }
      if nodes[d].nlink > 0 && nodes[i].nlink > 0 {
        EntersIs(nodes, i, d, Entry(i, name));
      }
      Iput(i);
      linking := linking - multiset{i};
    }

    method LinkBad(i: nat)
      requires Held(Abs(), i)
      modifies this`linking, node
      ensures Abs() == DoUndo(old(Abs()), i) && linking == old(linking) - multiset{i}
    {
      Ilock(i);
      node[i] := node[i].(nlink := node[i].nlink - 1);
      Iput(i);
      linking := linking - multiset{i};
    }
  }
}
