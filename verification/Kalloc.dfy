/**
 * The frame allocator (kalloc.c): a singly linked free list whose links lie in the free pages themselves.
 */
module Kalloc {
  const PGSIZE: nat := 4096
  const KERNBASE: nat := 0x80000000
  const PHYSTOP: nat := 0xE000000

  /** Following next from head gives the pages of list, then null. */
  predicate Linked(next: map<nat, nat>, head: nat, list: seq<nat>)
    decreases |list|
  {
    if list == [] then head == 0
    else head == list[0] && head != 0 && head in next && Linked(next, next[head], list[1..])
  }

  predicate NoDup(s: seq<nat>) {
    forall i, j | 0 <= i < j < |s| :: s[i] != s[j]
  }

  /** A link written into a page off the list leaves the list as it is. */
  lemma {:induction false} OffList(next: map<nat, nat>, head: nat, list: seq<nat>, v: nat, w: nat)
    requires Linked(next, head, list) && v !in list
    ensures Linked(next[v := w], head, list)
    decreases |list|
  {
    if list != [] {
      OffList(next, next[head], list[1..], v, w);
    }
  }

  /** A whole page within the range. */
  predicate InRange(v: nat, vstart: nat, vend: nat) {
    v % PGSIZE == 0 && vstart <= v && v + PGSIZE <= vend
  }

  class Kmem {
    const end: nat
    var freelist: nat
    var next: map<nat, nat>
    ghost var list: seq<nat>

    /** kfree's test: an aligned address in the memory after the kernel. */
    predicate Page(v: nat) {
      v % PGSIZE == 0 && v >= end && KERNBASE <= v < KERNBASE + PHYSTOP
    }

    ghost predicate Valid()
      reads this
    {
      Linked(next, freelist, list) && NoDup(list) && forall v | v in list :: Page(v)
    }

    constructor (end: nat)
      ensures Valid() && list == [] && this.end == end
    {
      this.end := end;
      freelist := 0;
      next := map[];
      list := [];
    }

    method Kfree(v: nat)
      requires Valid() && Page(v) && v !in list
      modifies this
      ensures Valid() && list == [v] + old(list)
    {
      OffList(next, freelist, list, v, freelist);
      next := next[v := freelist];
      freelist := v;
      list := [v] + list;
      assert list[1..] == old(list);
    }

    /** 0 when no page is free. */
    method Kalloc() returns (r: nat)
      requires Valid()
      modifies this
      ensures Valid()
      ensures if old(list) == [] then r == 0 && list == [] else r != 0 && old(list) == [r] + list
    {
      r := freelist;
      if r != 0 {
        freelist := next[r];
        list := list[1..];
      }
    }

    method Freerange(vstart: nat, vend: nat)
      requires Valid() && end <= vstart && KERNBASE <= vstart && vend <= KERNBASE + PHYSTOP
      requires forall v | v in list :: !InRange(v, vstart, vend)
      modifies this
      ensures Valid() && forall v: nat :: v in list <==> v in old(list) || InRange(v, vstart, vend)
    {
      var p := (vstart + PGSIZE - 1) / PGSIZE * PGSIZE;
      while p + PGSIZE <= vend
        invariant Valid() && p % PGSIZE == 0 && vstart <= p
        invariant forall v: nat :: v in list <==> v in old(list) || (InRange(v, vstart, vend) && v < p)
      {
        assert forall v: nat :: v < p + PGSIZE && v % PGSIZE == 0 ==> v <= p;
        assert InRange(p, vstart, vend);
        Kfree(p);
        p := p + PGSIZE;
      }
      assert forall v: nat :: InRange(v, vstart, vend) && v >= p ==> false;
    }
  }

  /** kinit1 and kinit2: first the memory the boot page table maps, then the rest; every whole page is free, once. */
  method Kinit(end: nat, split: nat) returns (k: Kmem)
    requires KERNBASE <= end <= split <= KERNBASE + PHYSTOP && split % PGSIZE == 0
    ensures k.Valid() && NoDup(k.list)
    ensures forall v: nat :: v in k.list <==> InRange(v, end, KERNBASE + PHYSTOP)
  {
    k := new Kmem(end);
    k.Freerange(end, split);
    k.Freerange(split, KERNBASE + PHYSTOP);
  }
}
