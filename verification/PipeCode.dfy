/** pipe.c on the pipe itself: what one process does between taking the lock and letting it go. */
module PipeCode {
  import opened Pipe

  // Why pipewrite or piperead let the lock go.
  datatype Outcome = Returned(n: int) | Slept

  // Who sleeps on &nread, and who on &nwrite.
  datatype Side = Readers | Writers

  class PipeBuf {
    const data: array<byte>
    var nread: nat
    var nwrite: nat
    var readopen: bool
    var writeopen: bool

    ghost predicate Valid()
      reads this, data
    {
      Shape(Abs())
    }

    ghost function Abs(): Buf
      reads this, data
    {
      Buf(data[..], nread, nwrite)
    }

    /** pipealloc */
    constructor ()
      ensures Valid() && fresh(data) && readopen && writeopen && nread == nwrite == 0
    {
      data := new byte[PIPESIZE](_ => 0);
      nread, nwrite, readopen, writeopen := 0, 0, true, true;
    }

    /** pipewrite from byte i on: i' bytes are in the pipe when the lock is let go, and `wake` says
        whether readers were woken. */
    method Pipewrite(addr: seq<byte>, i: nat, killed: bool) returns (out: Outcome, i': nat, wake: bool)
      requires Valid() && i <= |addr|
      modifies this`nwrite, data
      ensures Valid() && (Abs(), i' - i) == PutAll(old(Abs()), addr[i..]) && i <= i' <= |addr|
      ensures out == if i' == |addr| then Returned(|addr|) else if !readopen || killed then Returned(-1) else Slept
      ensures wake <==> out != Returned(-1)
    {
      i' := i;
      while i' < |addr|
        invariant Valid() && i <= i' <= |addr|
        invariant PutAll(old(Abs()), addr[i..]) == var r := PutAll(Abs(), addr[i'..]); (r.0, r.1 + (i' - i))
        decreases |addr| - i'
      {
        if nwrite == (nread + PIPESIZE) % WRAP {
          if !readopen || killed {
            return Returned(-1), i', false;
          }
          return Slept, i', true;
        }
        Once(Abs(), addr, i');
        data[nwrite % PIPESIZE] := addr[i'];
        nwrite := (nwrite + 1) % WRAP;
        i' := i' + 1;
      }
      return Returned(|addr|), i', true;
    }

    static lemma Once(b: Buf, addr: seq<byte>, i: nat)
      requires Shape(b) && !Full(b) && i < |addr|
      ensures PutAll(b, addr[i..]) == var r := PutAll(Put(b, addr[i]), addr[i + 1..]); (r.0, r.1 + 1)
    {
      assert addr[i..][1..] == addr[i + 1..];
    }

    /** piperead: the bytes read. `wake` says whether writers were woken. */
    method Piperead(n: nat, killed: bool) returns (out: Outcome, addr: seq<byte>, wake: bool)
      requires Valid()
      modifies this`nread
      ensures Valid()
      ensures old(nread == nwrite && writeopen) ==>
        Abs() == old(Abs()) && addr == [] && !wake && out == if killed then Returned(-1) else Slept
      ensures !old(nread == nwrite && writeopen) ==>
        (Abs(), addr) == Get(old(Abs()), n) && wake && out == Returned(|addr|)
    {
      addr := [];
      if nread == nwrite && writeopen {
        if killed {
          return Returned(-1), [], false;
        }
        return Slept, [], false;
      }
      var i := 0;
      while i < n
        invariant Valid() && 0 <= i <= n && |addr| == i
        invariant Get(old(Abs()), n).0 == Get(Abs(), n - i).0
        invariant Get(old(Abs()), n).1 == addr + Get(Abs(), n - i).1
      {
        if nread == nwrite {
          break;
        }
        ghost var x, rest := data[nread % PIPESIZE], Get(Abs().(nread := (nread + 1) % WRAP), n - i - 1).1;
        assert addr + ([x] + rest) == (addr + [x]) + rest;
        addr := addr + [data[nread % PIPESIZE]];
        nread := (nread + 1) % WRAP;
        i := i + 1;
      }
      assert addr + [] == addr;
      return Returned(i), addr, true;
    }

    /** pipeclose; `woken` says which side was woken, `freed` whether the pipe was given back. */
    method Pipeclose(writable: bool) returns (woken: Side, freed: bool)
      modifies this`readopen, this`writeopen
      ensures writeopen == (old(writeopen) && !writable) && readopen == (old(readopen) && writable)
      ensures woken == if writable then Readers else Writers
      ensures freed <==> !readopen && !writeopen
    {
      if writable {
        writeopen := false;
        woken := Readers;
      } else {
        readopen := false;
        woken := Writers;
      }
      freed := !readopen && !writeopen;
    }
  }
}
