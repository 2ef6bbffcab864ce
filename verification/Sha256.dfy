/** The streaming SHA-256 of src/sha256.c: a context updated in place, block by block. */
module Sha256 {
  import opened Arithmetic
  import opened Common
  import opened Fips180
  import opened WordFunctions

  /** The 64-entry message schedule, filled in order. */
  method FillSchedule(p: Block) returns (w: array<Word>)
    ensures fresh(w) && w.Length == 64
    ensures forall t :: 0 <= t < 64 ==> w[t] == Schedule(p, t)
  {
    hide *;
    w := new Word[64];
    for i := 0 to 16
      invariant forall t :: 0 <= t < i ==> w[t] == Schedule(p, t)
    {
      w[i] := WordOf(p[i * 4], p[i * 4 + 1], p[i * 4 + 2], p[i * 4 + 3]);
      ScheduleStart(p, i);
    }
    for i := 16 to 64
      invariant forall t :: 0 <= t < i ==> w[t] == Schedule(p, t)
    {
      var s0 := SmallSigma0(w[i - 15]);
      var s1 := SmallSigma1(w[i - 2]);
      w[i] := Plus(Plus(Plus(w[i - 16], s0), w[i - 7]), s1);
      ScheduleStep(p, i);
    }
  }

  lemma ScheduleStart(p: Block, t: nat)
    requires t < 16
    ensures WordOf(p[t * 4], p[t * 4 + 1], p[t * 4 + 2], p[t * 4 + 3]) == Schedule(p, t)
  {
    hide WordOf;
  }

  lemma ScheduleStep(p: Block, t: nat)
    requires 16 <= t < 64
    ensures Plus(Plus(Plus(Schedule(p, t - 16), SmallSigma0(Schedule(p, t - 15))), Schedule(p, t - 7)),
                 SmallSigma1(Schedule(p, t - 2)))
         == Schedule(p, t)
  {
    hide WordOf, SmallSigma0, SmallSigma1, Plus;
  }

  /** The 64 rounds on eight rotating variables. */
  method RotatingRounds(v: HashValue, p: Block)
    returns (a: Word, b: Word, cc: Word, d: Word, e: Word, f: Word, g: Word, h: Word)
    ensures Working(a, b, cc, d, e, f, g, h) == Rounds(v, p, 64)
  {
    hide *;
    var w := FillSchedule(p);
    a, b, cc, d, e, f, g, h := v[0], v[1], v[2], v[3], v[4], v[5], v[6], v[7];
    NoRounds(v, p);
    for i := 0 to 64
      invariant Working(a, b, cc, d, e, f, g, h) == Rounds(v, p, i)
      invariant forall t :: 0 <= t < 64 ==> w[t] == Schedule(p, t)
    {
      OneRound(v, p, i);
      var S1 := BigSigma1(e);
      var ch := Ch(e, f, g);
      var t1 := Plus(Plus(Plus(Plus(h, S1), ch), RoundConstant(i)), w[i]);
      var S0 := BigSigma0(a);
      var maj := Maj(a, b, cc);
      var t2 := Plus(S0, maj);
      h := g; g := f; f := e; e := Plus(d, t1);
      d := cc; cc := b; b := a; a := Plus(t1, t2);
    }
  }

  /** One block in place: the rounds, added back into the chaining value. */
  method BlockInPlace(hv: array<Word>, p: Block)
    requires hv.Length == 8
    modifies hv
    ensures hv[..] == Compress(old(hv[..]), p)
  {
    hide *;
    ghost var v: HashValue := hv[..];
    var a, b, cc, d, e, f, g, h := RotatingRounds(hv[..], p);
    AddFour(hv, 0, a, b, cc, d);
    AddFour(hv, 4, e, f, g, h);
    LastStep(v, p);
  }

  method AddFour(hv: array<Word>, i: nat, x0: Word, x1: Word, x2: Word, x3: Word)
    requires i + 4 <= hv.Length
    modifies hv
    ensures hv[..] == old(hv[..i]) + [Plus(old(hv[i]), x0), Plus(old(hv[i + 1]), x1),
                                      Plus(old(hv[i + 2]), x2), Plus(old(hv[i + 3]), x3)] + old(hv[i + 4..])
  {
    hide *;
    hv[i], hv[i + 1] := Plus(hv[i], x0), Plus(hv[i + 1], x1);
    hv[i + 2], hv[i + 3] := Plus(hv[i + 2], x2), Plus(hv[i + 3], x3);
  }

  lemma NoRounds(v: HashValue, p: Block)
    ensures Rounds(v, p, 0) == Working(v[0], v[1], v[2], v[3], v[4], v[5], v[6], v[7])
  {
  }

  lemma OneRound(v: HashValue, p: Block, i: nat)
    requires i < 64
    ensures var r := Rounds(v, p, i);
            var t1 := Plus(Plus(Plus(Plus(r.h, BigSigma1(r.e)), Ch(r.e, r.f, r.g)), RoundConstant(i)), Schedule(p, i));
            var t2 := Plus(BigSigma0(r.a), Maj(r.a, r.b, r.c));
            Rounds(v, p, i + 1) == Working(Plus(t1, t2), r.a, r.b, r.c, Plus(r.d, t1), r.e, r.f, r.g)
  {
    hide BigSigma0, BigSigma1, Ch, Maj, RoundConstant, Schedule, Plus;
  }

  lemma LastStep(v: HashValue, p: Block)
    ensures var r := Rounds(v, p, 64);
      Compress(v, p) == [Plus(v[0], r.a), Plus(v[1], r.b), Plus(v[2], r.c), Plus(v[3], r.d),
                         Plus(v[4], r.e), Plus(v[5], r.f), Plus(v[6], r.g), Plus(v[7], r.h)]
  {
    hide Rounds, Plus;
  }

  // ---- streaming ----

  /** The bytes of m that do not fill a block yet. */
  ghost function Tail(m: seq<Byte>): (t: seq<Byte>)
    ensures |t| == |m| % 64
  {
    m[|m| / 64 * 64..]
  }

  /** The chaining value over the whole blocks of m. */
  ghost function Chain(f: Compression, v: HashValue, m: seq<Byte>): HashValue {
    Iterate(f, v, m, |m| / 64)
  }

  lemma AbsorbPartial(f: Compression, v: HashValue, m: seq<Byte>, x: seq<Byte>)
    requires |Tail(m)| + |x| < 64
    ensures Chain(f, v, m + x) == Chain(f, v, m) && Tail(m + x) == Tail(m) + x
  {
    assert |m + x| / 64 == |m| / 64;
    IteratePrefix(f, v, m, m + x, |m| / 64);
  }

  lemma AbsorbBlock(f: Compression, v: HashValue, m: seq<Byte>, x: seq<Byte>)
    requires |Tail(m)| + |x| == 64
    ensures Chain(f, v, m + x) == f(Chain(f, v, m), Tail(m) + x) && Tail(m + x) == []
  {
    var n := |m| / 64;
    assert |m + x| / 64 == n + 1;
    IteratePrefix(f, v, m, m + x, n);
    assert (m + x)[64 * n..64 * (n + 1)] == Tail(m) + x;
  }

  /** The digest the code produces for any length: the bit count is a 64-bit number that wraps. */
  ghost function WrappedDigest(m: seq<Byte>): seq<Byte> {
    HashPadded(PadWith(m, 8 * |m| % TWO_64))
  }

  class Context {
    var h: array<Word>
    var len: nat            // uint64_t
    var buf: array<Byte>
    var buflen: nat
    ghost var absorbed: seq<Byte>

    ghost predicate Consistent()
      reads this, h, buf
    {
      && h.Length == 8 && buf.Length == 64
      && buflen == |absorbed| % 64
      && h[..] == Chain(Compress, InitialHash(), absorbed)
      && buf[..buflen] == Tail(absorbed)
    }

    ghost predicate Valid()
      reads this, h, buf
    {
      Consistent() && len == |absorbed| % TWO_64
    }

    constructor ()
      ensures Valid() && fresh(h) && fresh(buf) && absorbed == []
    {
      h := new Word[8];
      len := 0;
      buf := new Byte[64];
      buflen := 0;
      absorbed := [];
      new;
      h[0], h[1], h[2], h[3] := 0x6a09e667, 0xbb67ae85, 0x3c6ef372, 0xa54ff53a;
      h[4], h[5], h[6], h[7] := 0x510e527f, 0x9b05688c, 0x1f83d9ab, 0x5be0cd19;
    }

    /** One turn of the update loop: copy what fits, compress when the buffer is full. */
    method Absorb(x: seq<Byte>)
      requires Consistent() && 0 < |x| <= 64 - buflen
      modifies this`buflen, this`absorbed, h, buf
      ensures Consistent() && absorbed == old(absorbed) + x
    {
      hide Chain, Tail, Compress;
      forall i | 0 <= i < |x| {
        buf[buflen + i] := x[i];
      }
      buflen := buflen + |x|;
      assert buf[..buflen] == Tail(absorbed) + x;
      if buflen == 64 {
        AbsorbBlock(Compress, InitialHash(), absorbed, x);
        assert buf[..] == buf[..buflen];
        assert h[..] == Chain(Compress, InitialHash(), absorbed);
        BlockInPlace(h, buf[..]);
        assert h[..] == Chain(Compress, InitialHash(), absorbed + x);
        buflen := 0;
        assert buf[..0] == Tail(absorbed + x);
      } else {
        AbsorbPartial(Compress, InitialHash(), absorbed, x);
      }
      absorbed := absorbed + x;
    }

    method Update(data: seq<Byte>)
      requires Valid()
      modifies this`len, this`buflen, this`absorbed, h, buf
      ensures Valid() && absorbed == old(absorbed) + data
    {
      hide Chain, Tail;
      len := (len + |data|) % TWO_64;
      var p := 0;
      while p < |data|
        invariant p <= |data|
        invariant Consistent() && absorbed == old(absorbed) + data[..p]
        invariant len == (old(len) + |data|) % TWO_64
      {
        var take := 64 - buflen;
        if take > |data| - p {
          take := |data| - p;
        }
        assert data[..p + take] == data[..p] + data[p..p + take];
        Absorb(data[p..p + take]);
        p := p + take;
      }
      assert data[..p] == data;
      WrapAdds(|old(absorbed)|, |data|);
    }

    /** Zero bytes, one at a time, until eight are left in the block. */
    method PadZeros()
      requires Valid()
      modifies this`len, this`buflen, this`absorbed, h, buf
      ensures Valid() && absorbed == old(absorbed) + Zeros((56 - |old(absorbed)|) % 64)
    {
      hide Chain, Tail;
      ghost var m := absorbed;
      ghost var z := 0;
      assert m == m + Zeros(0);
      while buflen != 56
        invariant Valid() && absorbed == m + Zeros(z)
        invariant z <= (56 - |m|) % 64
        decreases (56 - buflen) % 64
      {
        PadProgress(|m|, z);
        Update([0]);
        assert Zeros(z) + [0] == Zeros(z + 1);
        z := z + 1;
      }
      PadDone(|m|, z);
    }

    /** The padding and the length field, all pushed through Update. */
    method Final() returns (out: seq<Byte>)
      requires Valid()
      modifies this`len, this`buflen, this`absorbed, h, buf
      ensures out == WrappedDigest(old(absorbed))
    {
      hide Chain, Tail, Flatten, HashBlocks, BigEndian, Zeros;
      var bits := 8 * len % TWO_64;
      ghost var m := absorbed;
      WrapTimes8(|m|);
      var lenbuf := LengthField(bits);
      Update([0x80]);
      PadZeros();
      Update(lenbuf);
      assert absorbed == PadWith(m, bits);
      out := EmitWords(h[..]);
      ChainOfPadded(m, bits);
    }
  }

  lemma PadProgress(n: nat, z: nat)
    requires z <= (56 - n) % 64 && (n + z) % 64 != 56
    ensures z < (56 - n) % 64
    ensures (56 - (n + z + 1) % 64) % 64 < (56 - (n + z) % 64) % 64
  {
    PadDone(n, (56 - n) % 64);
  }

  lemma PadDone(n: nat, z: nat)
    requires z <= (56 - n) % 64
    ensures (n + z) % 64 == 56 <==> z == (56 - n) % 64
  {
    var q := (56 - n) / 64;
    assert 56 - n == 64 * q + (56 - n) % 64;
    assert n + z == 64 * ((n + z) / 64) + (n + z) % 64;
  }

  lemma ChainOfPadded(m: seq<Byte>, bits: nat)
    ensures Flatten(Chain(Compress, InitialHash(), PadWith(m, bits))) == HashPadded(PadWith(m, bits))
  {
    hide Flatten, Compress, InitialHash;
  }

  method LengthField(bits: nat) returns (lenbuf: seq<Byte>)
    ensures lenbuf == BigEndian(bits, 8)
  {
    lenbuf := [];
    for i := 0 to 8
      invariant lenbuf == BigEndian(bits, 8)[..i]
    {
      DigitIsShift(bits, 8, i);
      lenbuf := lenbuf + [bits / Pow256(7 - i) % 0x100];
    }
  }

  ghost function FirstWords(h: HashValue, n: nat): seq<Byte>
    requires n <= 8
  {
    if n == 0 then [] else FirstWords(h, n - 1) + BytesOf(h[n - 1])
  }

  lemma AllWords(h: HashValue)
    ensures FirstWords(h, 8) == Flatten(h)
  {
    hide BytesOf;
    assert FirstWords(h, 1) == BytesOf(h[0]);
    assert FirstWords(h, 2) == BytesOf(h[0]) + BytesOf(h[1]);
    assert FirstWords(h, 3) == FirstWords(h, 2) + BytesOf(h[2]);
    assert FirstWords(h, 5) == FirstWords(h, 3) + BytesOf(h[3]) + BytesOf(h[4]);
    assert FirstWords(h, 7) == FirstWords(h, 5) + BytesOf(h[5]) + BytesOf(h[6]);
  }

  method EmitWords(h: HashValue) returns (out: seq<Byte>)
    ensures out == Flatten(h)
  {
    hide ByteAt, Flatten;
    out := [];
    for i := 0 to 8
      invariant out == FirstWords(h, i)
    {
      out := out + [ByteAt(h[i], 24), ByteAt(h[i], 16), ByteAt(h[i], 8), ByteAt(h[i], 0)];
    }
    AllWords(h);
  }

  lemma WrapAdds(a: nat, b: nat)
    ensures (a % TWO_64 + b) % TWO_64 == (a + b) % TWO_64
  {
  }

  lemma WrapTimes8(a: nat)
    ensures 8 * (a % TWO_64) % TWO_64 == 8 * a % TWO_64
  {
    var r := 8 * (a % TWO_64);
    assert 8 * a == (8 * (a / TWO_64) + r / TWO_64) * TWO_64 + r % TWO_64;
    DivUnique(8 * a, TWO_64, 8 * (a / TWO_64) + r / TWO_64, r % TWO_64);
  }

  // ---- whole messages ----

  /** Below 2^61 bytes the bit count does not wrap and the digest is the standard's. */
  lemma WrappedDigestIsStandard(m: seq<Byte>)
    requires |m| < 0x2000_0000_0000_0000
    ensures WrappedDigest(m) == Digest(m)
  {
    hide HashPadded, PadWith;
    assert 8 * |m| < TWO_64;
  }

  ghost function Concat(chunks: seq<seq<Byte>>): seq<Byte> {
    if chunks == [] then [] else Concat(chunks[..|chunks| - 1]) + chunks[|chunks| - 1]
  }

  /** However a message is cut into updates, the digest is that of the whole message. */
  method DigestOfChunks(chunks: seq<seq<Byte>>) returns (out: seq<Byte>)
    ensures out == WrappedDigest(Concat(chunks))
    ensures |Concat(chunks)| < 0x2000_0000_0000_0000 ==> out == Digest(Concat(chunks))
  {
    hide WrappedDigest, Digest, Chain, Tail;
    var c := new Context();
    for i := 0 to |chunks|
      invariant c.Valid() && fresh(c) && fresh(c.h) && fresh(c.buf)
      invariant c.absorbed == Concat(chunks[..i])
    {
      assert chunks[..i + 1][..i] == chunks[..i];
      c.Update(chunks[i]);
    }
    assert chunks[..|chunks|] == chunks;
    out := c.Final();
    if |Concat(chunks)| < 0x2000_0000_0000_0000 {
      WrappedDigestIsStandard(Concat(chunks));
    }
  }

  // ---- hexadecimal text ----

  function Hex(d: seq<Byte>): (s: string)
    ensures |s| == 2 * |d|
  {
    if d == [] then "" else Hex(d[..|d| - 1]) + [HEX_DIGITS[d[|d| - 1] / 16], HEX_DIGITS[d[|d| - 1] % 16]]
  }

  method HexInPlace(d: seq<Byte>) returns (hex: array<char>)
    ensures fresh(hex) && hex.Length == 2 * |d| + 1
    ensures hex[..2 * |d|] == Hex(d) && hex[2 * |d|] == '\0'
  {
    hex := new char[2 * |d| + 1];
    for i := 0 to |d|
      invariant hex[..2 * i] == Hex(d[..i])
    {
      assert d[..i + 1][..i] == d[..i];
      hex[i * 2] := HEX_DIGITS[d[i] / 16];
      hex[i * 2 + 1] := HEX_DIGITS[d[i] % 16];
      assert hex[..2 * (i + 1)] == hex[..2 * i] + [hex[i * 2], hex[i * 2 + 1]];
    }
    assert d[..|d|] == d;
    hex[2 * |d|] := '\0';
  }

  /** The one-shot form. */
  method Sha256Hex(buf: seq<Byte>) returns (hex: string)
    ensures hex == Hex(WrappedDigest(buf))
  {
    hide WrappedDigest, Chain, Tail, Hex, Context.Valid;
    var c := new Context();
    c.Update(buf);
    var d := c.Final();
    var a := HexInPlace(d);
    assert [] + buf == buf;
    hex := a[..2 * |d|];
  }

  lemma HexDigitInjective(x: nat, y: nat)
    requires x < 16 && y < 16 && HEX_DIGITS[x] == HEX_DIGITS[y]
    ensures x == y
  {
  }

  ghost predicate IsDigit(c: char) {
    '0' <= c <= '9' || 'a' <= c <= 'f'
  }

  ghost function DigitValue(c: char): nat
    requires IsDigit(c)
  {
    if c <= '9' then c as nat - '0' as nat else c as nat - 'a' as nat + 10
  }

  lemma HexDigitMeans(x: nat)
    requires x < 16
    ensures IsDigit(HEX_DIGITS[x]) && DigitValue(HEX_DIGITS[x]) == x
  {
  }

  /** The text is two lower-case hexadecimal digits a byte, the high one first. */
  lemma {:induction false} HexMeans(d: seq<Byte>, i: nat)
    requires i < |d|
    ensures var high, low := Hex(d)[2 * i], Hex(d)[2 * i + 1];
            IsDigit(high) && IsDigit(low) && d[i] == 16 * DigitValue(high) + DigitValue(low)
  {
    var n := |d| - 1;
    if i < n {
      HexMeans(d[..n], i);
      assert Hex(d)[..2 * n] == Hex(d[..n]);
      assert Hex(d)[2 * i] == Hex(d[..n])[2 * i] && Hex(d)[2 * i + 1] == Hex(d[..n])[2 * i + 1];
    } else {
      HexDigitMeans(d[n] / 16);
      HexDigitMeans(d[n] % 16);
    }
  }

  /** Equal text means equal bytes, so comparing saved hex strings compares digests. */
  lemma {:induction false} HexInjective(a: seq<Byte>, b: seq<Byte>)
    ensures Hex(a) == Hex(b) <==> a == b
  {
    if Hex(a) == Hex(b) && a != [] {
      var n := |a| - 1;
      var x, y := a[n], b[n];
      assert Hex(a)[..2 * n] == Hex(a[..n]) && Hex(b)[..2 * n] == Hex(b[..n]);
      HexInjective(a[..n], b[..n]);
      HexDigitInjective(x / 16, y / 16);
      HexDigitInjective(x % 16, y % 16);
      assert a == a[..n] + [x] && b == b[..n] + [y];
    }
  }
}
