/** Reassembling fixed-size records from a byte pipe: the loop of ac_resolve_timeout() in
    src/anticheat_daemon.c. */
module PipeRecords {
  import opened Arithmetic
  import opened Common

  /** One turn of the loop: the wait ends at the deadline or with an error, read() fails, or data (or the end
      of the stream) is there and read() returns at most n + 1 bytes. */
  datatype Turn = TimedOut | ReadError | Ready(n: nat)

  /** The whole records of a stream, in order; a shorter remainder is dropped. */
  function Records(stream: seq<Byte>, size: nat): seq<seq<Byte>>
    requires size > 0
  {
    if |stream| < size then [] else [stream[..size]] + Records(stream[size..], size)
  }

  lemma {:induction false} RecordCount(stream: seq<Byte>, size: nat)
    requires size > 0
    ensures |Records(stream, size)| == |stream| / size
  {
    if |stream| >= size {
      var rest := |stream| - size;
      RecordCount(stream[size..], size);
      assert (rest / size + 1) * size == rest / size * size + size;
      DivUnique(|stream|, size, rest / size + 1, rest % size);
    } else {
      DivUnique(|stream|, size, 0, |stream|);
    }
  }

  /** The records joined give the stream back, up to the remainder. */
  function Join(records: seq<seq<Byte>>): seq<Byte> {
    if records == [] then [] else records[0] + Join(records[1..])
  }

  lemma {:induction false} JoinRecords(stream: seq<Byte>, size: nat)
    requires size > 0
    ensures Join(Records(stream, size)) <= stream
    ensures |stream| - |Join(Records(stream, size))| < size
    ensures forall r :: r in Records(stream, size) ==> |r| == size
  {
    if |stream| >= size {
      JoinRecords(stream[size..], size);
      var rs := Records(stream, size);
      assert rs[1..] == Records(stream[size..], size);
      assert stream == stream[..size] + stream[size..];
    }
  }

  /** For every way the stream is cut into reads: what is collected is a prefix of the stream's whole records,
      and if the loop was not cut short it is as many of them as there are, up to max. */
  method Collect(stream: seq<Byte>, size: nat, max: nat, turns: seq<Turn>)
    returns (out: seq<seq<Byte>>, complete: bool, used: nat)
    requires size > 0
    ensures out <= Records(stream, size) && |out| <= max && used <= |turns|
    ensures complete ==> |out| == Min(max, |Records(stream, size)|)
    ensures !complete ==> used == |turns| || turns[used].TimedOut? || turns[used].ReadError?
  {
    hide Records;
    var buf := new Byte[size](_ => 0);
    var have: nat, pos: nat := 0, 0;
    out := [];
    used := 0;
    assert stream[0..] == stream;
    while |out| < max
      invariant used <= |turns| && have < size && have <= pos <= |stream| && |out| <= max
      invariant buf[..have] == stream[pos - have..pos]
      invariant Records(stream, size) == out + Records(stream[pos - have..], size)
      decreases |turns| - used
    {
      if used == |turns| || turns[used].TimedOut? || turns[used].ReadError? {
        return out, false, used;
      }
      var r := Min(turns[used].n + 1, Min(size - have, |stream| - pos));
      used := used + 1;
      if r == 0 {
        NoRecord(stream[pos - have..], size);
        return out, true, used;
      }
      ReadInto(buf, have, stream[pos..pos + r]);
      SlicesMeet(stream, pos - have, pos, pos + r);
      have, pos := have + r, pos + r;
      if have == size {
        OneRecord(stream, pos - size, size);
        assert buf[..] == buf[..have];
        out := out + [buf[..]];
        have := 0;
      }
    }
    complete := true;
  }

  lemma NoRecord(stream: seq<Byte>, size: nat)
    requires |stream| < size
    ensures Records(stream, size) == []
  {
  }

  lemma OneRecord(stream: seq<Byte>, base: nat, size: nat)
    requires 0 < size && base + size <= |stream|
    ensures Records(stream[base..], size) == [stream[base..base + size]] + Records(stream[base + size..], size)
  {
    assert stream[base..][..size] == stream[base..base + size];
    assert stream[base..][size..] == stream[base + size..];
  }

  lemma SlicesMeet(s: seq<Byte>, a: nat, b: nat, c: nat)
    requires a <= b <= c <= |s|
    ensures s[a..b] + s[b..c] == s[a..c]
  {
  }

  method ReadInto(buf: array<Byte>, have: nat, bytes: seq<Byte>)
    requires have + |bytes| <= buf.Length
    modifies buf
    ensures buf[..have + |bytes|] == old(buf[..have]) + bytes
  {
    forall i | 0 <= i < |bytes| {
      buf[have + i] := bytes[i];
    }
  }
}
