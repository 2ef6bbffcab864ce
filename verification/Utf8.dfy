/** Turning the bytes of a request body into text as server/ac_server.py does, decode("utf-8", errors="replace"),
    and what every such decoder does to a JSON body. A byte is held as the character of the same number. */
module Utf8 {
  import opened Arithmetic
  import opened Common
  import Json

  const REPLACEMENT: char := '\U{FFFD}'

  predicate High(s: string) {
    forall i :: 0 <= i < |s| ==> s[i] >= FIRST_HIGH
  }

  /** All that is asked of a decoder: an ASCII byte stands for itself and ends whatever was before it, and a
      stretch of other bytes becomes other characters, no more of them than there were bytes. */
  ghost predicate KeepsAscii(dec: string -> string) {
    && dec("") == ""
    && (forall a, c, b :: c < FIRST_HIGH ==> dec(a + [c] + b) == dec(a) + [c] + dec(b))
    && (forall s :: High(s) ==> High(dec(s)) && |dec(s)| <= |s|)
  }

  // ---- decoding and escaping ----

  lemma {:induction false} AsciiSplits(dec: string -> string, a: string, e: string, b: string)
    requires KeepsAscii(dec) && Ascii(e) && e != ""
    ensures dec(a + e + b) == dec(a) + e + dec(b)
    decreases |e|
  {
    if |e| == 1 {
      assert e == [e[0]];
    } else {
      var rest := e[1..];
      assert a + e + b == a + [e[0]] + (rest + b);
      AsciiSplits(dec, "", rest, b);
      assert "" + rest + b == rest + b;
      assert dec(a) + [e[0]] + ("" + rest + dec(b)) == dec(a) + e + dec(b);
    }
  }

  lemma AsciiDecodes(dec: string -> string, e: string)
    requires KeepsAscii(dec) && Ascii(e)
    ensures dec(e) == e
  {
    if e != "" {
      AsciiSplits(dec, "", e, "");
      assert "" + e + "" == e;
    }
  }

  lemma {:induction false} EscapeConcat(a: string, b: string)
    ensures Json.Escape(a + b) == Json.Escape(a) + Json.Escape(b)
  {
    hide Json.EscapeByte;
    if b == "" {
      assert a + b == a;
    } else {
      assert (a + b)[..|a + b| - 1] == a + b[..|b| - 1];
      EscapeConcat(a, b[..|b| - 1]);
    }
  }

  lemma HighByteEscapesToItself(c: char)
    requires c >= FIRST_HIGH
    ensures Json.EscapeByte(c) == [c]
  {
  }

  lemma {:induction false} HighEscapesToItself(s: string)
    requires High(s)
    ensures Json.Escape(s) == s
  {
    hide Json.EscapeByte;
    if s != "" {
      HighEscapesToItself(s[..|s| - 1]);
      HighByteEscapesToItself(s[|s| - 1]);
    }
  }

  /** Escaping before decoding is decoding before escaping. */
  lemma {:induction false} EscapeCommutes(dec: string -> string, s: string)
    requires KeepsAscii(dec)
    ensures dec(Json.Escape(s)) == Json.Escape(dec(s))
    decreases |s|
  {
    hide Json.Escape, Json.EscapeByte;
    if High(s) {
      HighEscapesToItself(s);
      HighEscapesToItself(dec(s));
    } else {
      var i :| 0 <= i < |s| && s[i] < FIRST_HIGH;
      var a, c, b := s[..i], s[i], s[i + 1..];
      assert s == a + [c] + b;
      EscapeSplits(a, c, b);
      EscapeSplits(dec(a), c, dec(b));
      EscapedIsAscii(c);
      AsciiSplits(dec, Json.Escape(a), Json.EscapeByte(c), Json.Escape(b));
      EscapeCommutes(dec, a);
      EscapeCommutes(dec, b);
    }
  }

  lemma EscapeSplits(a: string, c: char, b: string)
    ensures Json.Escape(a + [c] + b) == Json.Escape(a) + Json.EscapeByte(c) + Json.Escape(b)
  {
    hide Json.EscapeByte;
    EscapeConcat(a + [c], b);
    assert (a + [c])[..|a|] == a;
  }

  lemma EscapedIsAscii(c: char)
    requires c < FIRST_HIGH
    ensures Ascii(Json.EscapeByte(c)) && Json.EscapeByte(c) != ""
  {
  }

  lemma {:induction false} DecodedIsNoLonger(dec: string -> string, s: string)
    requires KeepsAscii(dec)
    ensures |dec(s)| <= |s|
    decreases |s|
  {
    if !High(s) {
      var i :| 0 <= i < |s| && s[i] < FIRST_HIGH;
      assert s == s[..i] + [s[i]] + s[i + 1..];
      DecodedIsNoLonger(dec, s[..i]);
      DecodedIsNoLonger(dec, s[i + 1..]);
    }
  }

  lemma {:induction false} DecimalIsAscii(n: nat)
    ensures Ascii(Json.Decimal(n))
  {
    if n >= 10 {
      DecimalIsAscii(n / 10);
    }
  }

  lemma TimeIsAscii(ts: int)
    ensures Ascii(Json.SignedDecimal(ts))
  {
    hide Json.Decimal;
    DecimalIsAscii(if ts < 0 then -ts else ts);
  }

  lemma SurroundedDecodes(dec: string -> string, a: string, v: string, b: string, x: string, c: string,
                          y: string, d: string)
    requires KeepsAscii(dec) && Ascii(a) && Ascii(b) && Ascii(c) && Ascii(d) && a != "" && b != "" && c != "" && d != ""
    ensures dec(a + v + b + x + c + y + d) == a + dec(v) + b + dec(x) + c + dec(y) + d
  {
    AsciiSplits(dec, a + v + b + x + c + y, d, "");
    AsciiSplits(dec, a + v + b + x, c, y);
    AsciiSplits(dec, a + v, b, x);
    AsciiSplits(dec, "", a, v);
    assert a + v + b + x + c + y + d + "" == a + v + b + x + c + y + d;
    assert "" + a + v == a + v;
  }

  /** Decoding a report body decodes its client id, its event and its detail and leaves the rest alone. */
  lemma DecodedBody(dec: string -> string, id: string, event: string, detail: string, ts: int)
    requires KeepsAscii(dec)
    ensures dec(Json.Formatted(id, Json.Escape(event), Json.Escape(detail), ts))
         == Json.Formatted(dec(id), Json.Escape(dec(event)), Json.Escape(dec(detail)), ts)
  {
    hide Json.Escape, Json.SignedDecimal, KeepsAscii;
    var post := "\"" + Json.STAMP + Json.SignedDecimal(ts) + "}";
    TimeIsAscii(ts);
    var x, y := Json.Escape(event), Json.Escape(detail);
    SurroundedDecodes(dec, Json.OPEN, id, "\"" + Json.EVENT, x, "\"" + Json.DETAIL, y, post);
    EscapeCommutes(dec, event);
    EscapeCommutes(dec, detail);
    FormattedSplits(id, x, y, ts);
    FormattedSplits(dec(id), dec(x), dec(y), ts);
  }

  lemma Regroup(open: string, id: string, q: string, ev: string, x: string, de: string, y: string,
                st: string, n: string, end: string)
    ensures open + (id + q + (ev + (x + q + (de + (y + q + (st + (n + end)))))))
         == open + id + (q + ev) + x + (q + de) + y + (q + st + n + end)
  {
    var tail := y + (q + st + n + end);
    assert y + q + (st + (n + end)) == tail;
    assert x + q + (de + tail) == x + (q + de) + tail;
    assert open + (id + q + (ev + (x + (q + de) + tail))) == open + id + (q + ev) + x + (q + de) + tail;
  }

  lemma FormattedSplits(id: string, x: string, y: string, ts: int)
    ensures Json.Formatted(id, x, y, ts)
         == Json.OPEN + id + ("\"" + Json.EVENT) + x + ("\"" + Json.DETAIL) + y
            + ("\"" + Json.STAMP + Json.SignedDecimal(ts) + "}")
  {
    hide Json.SignedDecimal;
    Regroup(Json.OPEN, id, "\"", Json.EVENT, x, Json.DETAIL, y, Json.STAMP, Json.SignedDecimal(ts), "}");
  }

  // ---- the decoder of the server ----

  /** How many bytes follow a lead byte; 0 for a byte that cannot lead. */
  function Needed(lead: char): nat {
    var b := lead as int;
    if 0xC2 <= b <= 0xDF then 1 else if 0xE0 <= b <= 0xEF then 2 else if 0xF0 <= b <= 0xF4 then 3 else 0
  }

  predicate Continues(c: char) {
    0x80 <= c as int <= 0xBF
  }

  /** Table 3-7 of the Unicode Standard: some leads narrow the byte after them. */
  predicate Second(lead: char, c: char) {
    var b := lead as int;
    && (if b == 0xE0 then 0xA0 else if b == 0xF0 then 0x90 else 0x80) <= c as int
    && c as int <= if b == 0xED then 0x9F else if b == 0xF4 then 0x8F else 0xBF
  }

  /** How many of the bytes a lead needs are there. */
  function Present(s: string): nat
    requires s != ""
  {
    if Needed(s[0]) < 1 || |s| < 2 || !Second(s[0], s[1]) then 0
    else if Needed(s[0]) < 2 || |s| < 3 || !Continues(s[2]) then 1
    else if Needed(s[0]) < 3 || |s| < 4 || !Continues(s[3]) then 2
    else 3
  }

  /** The next character and the number of bytes it takes: a whole sequence, or a replacement for the longest
      start of one. */
  function Step(s: string): (r: (char, nat))
    requires s != ""
    ensures 1 <= r.1 <= |s|
    ensures s[0] < FIRST_HIGH ==> r == (s[0], 1)
    ensures s[0] >= FIRST_HIGH ==> r.0 >= FIRST_HIGH
  {
    var n := Present(s);
    var b := s[0] as int;
    if b < 0x80 then (s[0], 1)
    else if n == 0 || n < Needed(s[0]) then (REPLACEMENT, n + 1)
    else if n == 1 then ((64 * (b - 0xC0) + Low(s[1])) as char, 2)
    else if n == 2 then ((4096 * (b - 0xE0) + 64 * Low(s[1]) + Low(s[2])) as char, 3)
    else ((262144 * (b - 0xF0) + 4096 * Low(s[1]) + 64 * Low(s[2]) + Low(s[3])) as char, 4)
  }

  function Low(c: char): int {
    c as int - 0x80
  }

  function Decode(s: string): string {
    if s == "" then "" else [Step(s).0] + Decode(s[Step(s).1..])
  }

  /** A sequence never reaches across an ASCII byte. */
  lemma StepStopsAtAscii(a: string, c: char, b: string)
    requires a != "" && c < FIRST_HIGH
    ensures Step(a + [c] + b) == Step(a)
  {
    var s := a + [c] + b;
    assert s[0] == a[0] && s[|a|] == c;
    assert |a| > 1 ==> s[1] == a[1];
    assert |a| > 2 ==> s[2] == a[2];
    assert |a| > 3 ==> s[3] == a[3];
  }

  lemma {:induction false} DecodeSplits(a: string, c: char, b: string)
    requires c < FIRST_HIGH
    ensures Decode(a + [c] + b) == Decode(a) + [c] + Decode(b)
    decreases |a|
  {
    hide Step;
    var s := a + [c] + b;
    if a == "" {
      assert s[0] == c && s[1..] == b;
    } else {
      StepStopsAtAscii(a, c, b);
      var n := Step(a).1;
      assert s[n..] == a[n..] + [c] + b;
      DecodeSplits(a[n..], c, b);
    }
  }

  lemma {:induction false} DecodeHigh(s: string)
    requires High(s)
    ensures High(Decode(s)) && |Decode(s)| <= |s|
    decreases |s|
  {
    hide Step;
    if s != "" {
      DecodeHigh(s[Step(s).1..]);
    }
  }

  lemma DecodeKeepsAscii()
    ensures KeepsAscii(Decode)
  {
    forall a, c, b | c < FIRST_HIGH ensures Decode(a + [c] + b) == Decode(a) + [c] + Decode(b) {
      DecodeSplits(a, c, b);
    }
    forall s | High(s) ensures High(Decode(s)) && |Decode(s)| <= |s| {
      DecodeHigh(s);
    }
  }

  // ---- text sent as UTF-8 comes back ----

  function EncodeChar(c: char): (e: string)
    ensures e != ""
  {
    var n := c as int;
    if n < 0x80 then [c]
    else if n < 0x800 then [(0xC0 + n / 64) as char, Follow(n)]
    else if n < 0x1_0000 then [(0xE0 + n / 4096) as char, Follow(n / 64), Follow(n)]
    else [(0xF0 + n / 262144) as char, Follow(n / 4096), Follow(n / 64), Follow(n)]
  }

  function Follow(n: nat): char {
    (0x80 + n % 64) as char
  }

  function Encode(t: string): string {
    if t == "" then "" else EncodeChar(t[0]) + Encode(t[1..])
  }

  lemma TwoByteStep(x: nat, y: nat, rest: string)
    requires 2 <= x < 32 && y < 64
    ensures Step([(0xC0 + x) as char, (0x80 + y) as char] + rest) == ((64 * x + y) as char, 2)
  {
  }

  lemma ThreeByteStep(x: nat, y: nat, z: nat, rest: string)
    requires x < 16 && y < 64 && z < 64 && (x == 0 ==> y >= 32) && (x == 13 ==> y < 32)
    ensures Step([(0xE0 + x) as char, (0x80 + y) as char, (0x80 + z) as char] + rest)
         == ((4096 * x + 64 * y + z) as char, 3)
  {
    var s := [(0xE0 + x) as char, (0x80 + y) as char, (0x80 + z) as char] + rest;
    assert Present(s) == 2;
  }

  lemma FourByteStep(w: nat, x: nat, y: nat, z: nat, rest: string)
    requires w < 5 && x < 64 && y < 64 && z < 64 && (w == 0 ==> x >= 16) && (w == 4 ==> x < 16)
    ensures Step([(0xF0 + w) as char, (0x80 + x) as char, (0x80 + y) as char, (0x80 + z) as char] + rest)
         == ((262144 * w + 4096 * x + 64 * y + z) as char, 4)
  {
    var s := [(0xF0 + w) as char, (0x80 + x) as char, (0x80 + y) as char, (0x80 + z) as char] + rest;
    assert Present(s) == 3;
  }

  lemma Digits(n: nat)
    ensures n == 64 * (n / 64) + n % 64 && n == 4096 * (n / 4096) + 64 * (n / 64 % 64) + n % 64
    ensures n == 262144 * (n / 262144) + 4096 * (n / 4096 % 64) + 64 * (n / 64 % 64) + n % 64
  {
    assert n / 4096 == n / 64 / 64 && n / 262144 == n / 4096 / 64;
  }

  lemma EncodedSteps(c: char, rest: string)
    ensures Step(EncodeChar(c) + rest) == (c, |EncodeChar(c)|)
  {
    hide Step;
    var n := c as int;
    Digits(n);
    if n < 0x80 {
    } else if n < 0x800 {
      TwoByteStep(n / 64, n % 64, rest);
    } else if n < 0x1_0000 {
      ThreeByteStep(n / 4096, n / 64 % 64, n % 64, rest);
    } else {
      FourByteStep(n / 262144, n / 4096 % 64, n / 64 % 64, n % 64, rest);
    }
  }

  lemma {:induction false} EncodeRoundTrip(t: string)
    ensures Decode(Encode(t)) == t
  {
    hide Step, EncodeChar;
    if t != "" {
      var e, rest := EncodeChar(t[0]), Encode(t[1..]);
      EncodedSteps(t[0], rest);
      EncodeRoundTrip(t[1..]);
      assert (e + rest)[|e|..] == rest;
    }
  }

  // ---- what the decoder does with any bytes ----

  lemma TwoByteForm(x: nat, y: nat)
    requires 2 <= x < 32 && y < 64
    ensures EncodeChar((64 * x + y) as char) == [(0xC0 + x) as char, (0x80 + y) as char]
  {
  }

  lemma ThreeByteForm(x: nat, y: nat, z: nat)
    requires x < 16 && y < 64 && z < 64 && (x == 0 ==> y >= 32) && (x == 13 ==> y < 32)
    ensures EncodeChar((4096 * x + 64 * y + z) as char) == [(0xE0 + x) as char, (0x80 + y) as char, (0x80 + z) as char]
  {
    var n := 4096 * x + 64 * y + z;
    DivUnique(n, 64, 64 * x + y, z);
    DivUnique(n, 4096, x, 64 * y + z);
    DivUnique(n / 64, 64, x, y);
  }

  lemma FourByteForm(w: nat, x: nat, y: nat, z: nat)
    requires w < 5 && x < 64 && y < 64 && z < 64 && (w == 0 ==> x >= 16) && (w == 4 ==> x < 16)
    ensures EncodeChar((262144 * w + 4096 * x + 64 * y + z) as char)
         == [(0xF0 + w) as char, (0x80 + x) as char, (0x80 + y) as char, (0x80 + z) as char]
  {
    var n := 262144 * w + 4096 * x + 64 * y + z;
    DivUnique(n, 64, 4096 * w + 64 * x + y, z);
    DivUnique(n, 4096, 64 * w + x, 64 * y + z);
    DivUnique(n, 262144, w, 4096 * x + 64 * y + z);
    DivUnique(n / 64, 64, 64 * w + x, y);
    DivUnique(n / 4096, 64, w, x);
  }

  /** The bytes of a character are as the table asks. */
  lemma EncodedIsComplete(c: char)
    ensures var e := EncodeChar(c);
            && (|e| == 1 ==> e[0] < FIRST_HIGH) && (|e| > 1 ==> |e| == 1 + Needed(e[0]) && Second(e[0], e[1]))
            && forall i :: 2 <= i < |e| ==> Continues(e[i])
  {
  }

  ghost predicate Whole(s: string) {
    exists c :: EncodeChar(c) <= s
  }

  /** The start of the bytes of some character. */
  ghost predicate Begins(s: string) {
    exists c :: s <= EncodeChar(c)
  }

  lemma TwoBegin(s: string)
    requires s != "" && Needed(s[0]) == 1 && Present(s) >= 1
    ensures |s| >= 2 && Begins(s[..2]) && Step(s).1 == 2 && EncodeChar(Step(s).0) == s[..2]
  {
    hide EncodeChar;
    TwoByteForm(s[0] as int - 0xC0, Low(s[1]));
    assert s[..2] == [s[0], s[1]] <= EncodeChar((64 * (s[0] as int - 0xC0) + Low(s[1])) as char);
  }

  /** A start of three bytes can be completed, and three bytes are one character. */
  lemma ThreeBegin(s: string, n: nat)
    requires s != "" && Needed(s[0]) == 2 && 1 <= n <= Present(s)
    ensures |s| > n && Begins(s[..n + 1])
    ensures n == 2 ==> Step(s).1 == 3 && EncodeChar(Step(s).0) == s[..3]
  {
    hide EncodeChar;
    var x, y, z := s[0] as int - 0xE0, Low(s[1]), if n == 2 then Low(s[2]) else 0;
    ThreeByteForm(x, y, z);
    var e := [s[0], s[1], (0x80 + z) as char];
    assert EncodeChar((4096 * x + 64 * y + z) as char) == e;
    assert s[..n + 1] == e[..n + 1];
    assert s[..n + 1] <= EncodeChar((4096 * x + 64 * y + z) as char);
  }

  lemma FourBegin(s: string, n: nat)
    requires s != "" && Needed(s[0]) == 3 && 1 <= n <= Present(s)
    ensures |s| > n && Begins(s[..n + 1])
    ensures n == 3 ==> Step(s).1 == 4 && EncodeChar(Step(s).0) == s[..4]
  {
    hide EncodeChar;
    var w, x := s[0] as int - 0xF0, Low(s[1]);
    var y, z := if n >= 2 then Low(s[2]) else 0, if n == 3 then Low(s[3]) else 0;
    FourByteForm(w, x, y, z);
    var e := [s[0], s[1], (0x80 + y) as char, (0x80 + z) as char];
    assert EncodeChar((262144 * w + 4096 * x + 64 * y + z) as char) == e;
    assert s[..n + 1] == e[..n + 1];
    assert s[..n + 1] <= EncodeChar((262144 * w + 4096 * x + 64 * y + z) as char);
  }

  lemma NothingLonger(s: string, n: nat)
    requires s != "" && s[0] >= FIRST_HIGH && Present(s) + 1 < n <= |s|
    ensures !Begins(s[..n])
  {
    forall c ensures !(s[..n] <= EncodeChar(c)) {
      EncodedIsComplete(c);
    }
  }

  lemma WholeIsPresent(s: string, c: char)
    requires s != "" && s[0] >= FIRST_HIGH && EncodeChar(c) <= s
    ensures Needed(s[0]) > 0 && Present(s) == Needed(s[0])
  {
    EncodedIsComplete(c);
  }

  /** What the decoder makes of any bytes: if they start with those of a character, that character; if not, a
      replacement for the longest start of some character's bytes, or for one byte that starts none. */
  lemma StepMeans(s: string)
    requires s != ""
    ensures var (c, n) := Step(s);
            if Whole(s) then EncodeChar(c) == s[..n]
            else c == REPLACEMENT && (n == 1 || Begins(s[..n])) && (n < |s| ==> !Begins(s[..n + 1]))
  {
    hide EncodeChar, Second;
    if s[0] < FIRST_HIGH {
      AsciiIsItself(s);
    } else {
      var n := Present(s);
      forall c | EncodeChar(c) <= s ensures Needed(s[0]) > 0 && n == Needed(s[0]) {
        WholeIsPresent(s, c);
      }
      if n + 1 < |s| {
        NothingLonger(s, n + 2);
      }
      if n >= 1 && Needed(s[0]) == 1 {
        TwoBegin(s);
      } else if n >= 1 && Needed(s[0]) == 2 {
        ThreeBegin(s, n);
      } else if n >= 1 {
        FourBegin(s, n);
      }
    }
  }

  lemma AsciiIsItself(s: string)
    requires s != "" && s[0] < FIRST_HIGH
    ensures EncodeChar(s[0]) == s[..1] && Whole(s)
  {
    assert EncodeChar(s[0]) <= s;
  }
}
