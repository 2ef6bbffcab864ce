/** Hashing a range of a process's memory through short reads: hash_proc_mem() in
    src/anticheat_daemon.c. */
module MemoryHash {
  import opened Common
  import opened Fips180
  import opened Sha256

  const READ_CHUNK: nat := 1024 * 1024

  type Memory = nat -> Byte

  /** What one pread() call does: interrupted by a signal, an error, or at most n bytes (0: end of file) of what the
      memory holds at that moment. */
  datatype Read = Interrupted | Error | Got(n: nat, mem: Memory)

  datatype Outcome = Hashed(hex: string) | Failed | StillReading

  predicate EndOfFile(call: Read) {
    call.Got? && call.n == 0
  }

  function Range(mem: Memory, start: nat, size: nat): (s: seq<Byte>)
    ensures |s| == size
  {
    seq(size, i requires 0 <= i => mem(start + i))
  }

  /** The bytes one call returns when the first done of size are there. */
  function Returned(start: nat, size: nat, done: nat, call: Read): (s: seq<Byte>)
    requires done <= size
    ensures done + |s| <= size
  {
    if call.Got? then Range(call.mem, start + done, Min(call.n, Min(READ_CHUNK, size - done))) else []
  }

  /** Everything these calls returned. */
  ghost function Received(start: nat, size: nat, calls: seq<Read>): (s: seq<Byte>)
    ensures |s| <= size
  {
    if calls == [] then [] else
      var before := Received(start, size, calls[..|calls| - 1]);
      before + Returned(start, size, |before|, calls[|calls| - 1])
  }

  /** For every pattern of short reads and interruptions, and however the memory changes between the calls: success
      means that the hash is of exactly the bytes received and that they are as many as were asked for, and
      failure that a call failed or met the end of file with bytes still missing. */
  method HashProcMem(start: nat, size: nat, calls: seq<Read>) returns (r: Outcome, used: nat)
    ensures used <= |calls|
    ensures r.Hashed? <==> |Received(start, size, calls[..used])| == size
    ensures r.Hashed? ==> r.hex == Hex(WrappedDigest(Received(start, size, calls[..used])))
    ensures forall i :: 0 <= i < used - (if r.Failed? then 1 else 0) ==>
              calls[i] == Interrupted || (calls[i].Got? && calls[i].n >= 1)
    ensures r.Failed? ==> used > 0 && (calls[used - 1] == Error || (calls[used - 1].Got? && calls[used - 1].n == 0))
    ensures r.StillReading? ==> used == |calls|
  {
    hide WrappedDigest, Chain, Tail, Hex, Context.Valid, Range;
    var ctx := new Context();
    var done := 0;
    used := 0;
    while done < size
      invariant ctx.Valid() && fresh(ctx) && fresh(ctx.h) && fresh(ctx.buf)
      invariant used <= |calls| && ctx.absorbed == Received(start, size, calls[..used]) && done == |ctx.absorbed|
      invariant forall i :: 0 <= i < used ==> !calls[i].Error? && !EndOfFile(calls[i])
      decreases |calls| - used
    {
      if used == |calls| {
        return StillReading, used;
      }
      var call := calls[used];
      assert calls[..used + 1][..used] == calls[..used];
      used := used + 1;
      if call.Error? {
        return Failed, used;
      }
      if call.Got? {
        var chunk := Returned(start, size, done, call);
        if |chunk| == 0 {
          return Failed, used;
        }
        ctx.Update(chunk);
        done := done + |chunk|;
      }
    }
    var d := ctx.Final();
    var hex := HexInPlace(d);
    r := Hashed(hex[..2 * |d|]);
  }

  /** If the range holds the same bytes at every call, what was received is the start of the range, and all of it once
      enough was. */
  lemma {:induction false} UnchangedMemoryIsRead(mem: Memory, start: nat, size: nat, calls: seq<Read>)
    requires forall i, a :: 0 <= i < |calls| && calls[i].Got? && start <= a < start + size ==> calls[i].mem(a) == mem(a)
    ensures Received(start, size, calls) == Range(mem, start, |Received(start, size, calls)|)
  {
    if calls != [] {
      var n := |calls| - 1;
      assert forall i :: 0 <= i < n ==> calls[..n][i] == calls[i];
      UnchangedMemoryIsRead(mem, start, size, calls[..n]);
      var before := Received(start, size, calls[..n]);
      var last := Returned(start, size, |before|, calls[n]);
      assert Range(mem, start, |before| + |last|) == Range(mem, start, |before|) + last;
    }
  }

  /** What the calls offer: each as many bytes as it has, up to 1 MiB. */
  ghost function Offered(calls: seq<Read>): nat {
    if calls == [] then 0 else
      var last := calls[|calls| - 1];
      Offered(calls[..|calls| - 1]) + if !last.Got? then 0 else if last.n < 1048576 then last.n else 1048576
  }

  /** Everything offered is taken, up to what was asked for. */
  lemma {:induction false} AllOfferedIsReceived(start: nat, size: nat, calls: seq<Read>)
    ensures |Received(start, size, calls)| == if Offered(calls) < size then Offered(calls) else size
  {
    hide Range;
    if calls != [] {
      AllOfferedIsReceived(start, size, calls[..|calls| - 1]);
    }
  }
}
