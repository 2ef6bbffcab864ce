/** JSON string escaping and the report body, from ac_json_escape() and ac_report() in
    src/anticheat_daemon.c. A C string is a sequence of bytes, held here as characters. */
module Json {
  import opened Common

  // ---- section 7 of RFC 8259 ----

  predicate IsHex(c: char) {
    '0' <= c <= '9' || 'a' <= c <= 'f' || 'A' <= c <= 'F'
  }

  function HexValue(c: char): (v: nat)
    requires IsHex(c)
    ensures v < 16
  {
    if c <= '9' then c as int - '0' as int
    else if c <= 'F' then c as int - 'A' as int + 10
    else c as int - 'a' as int + 10
  }

  /** Four hexadecimal digits at i. */
  function ReadHex(t: string, i: nat): (r: Option<nat>)
    ensures r.Some? ==> r.value < 0x1_0000
  {
    if |t| < i + 4 || !(IsHex(t[i]) && IsHex(t[i + 1]) && IsHex(t[i + 2]) && IsHex(t[i + 3])) then None
    else Some(0x1000 * HexValue(t[i]) + 0x100 * HexValue(t[i + 1]) + 0x10 * HexValue(t[i + 2]) + HexValue(t[i + 3]))
  }

  /** A character of the basic plane, or a surrogate pair; a surrogate alone stands for no character. */
  function ReadUnicode(t: string): Option<(char, nat)> {
    var code :- ReadHex(t, 2);
    if code < 0xD800 || code >= 0xE000 then Some((code as char, 6))
    else if code >= 0xDC00 || |t| < 8 || t[6] != '\\' || t[7] != 'u' then None
    else
      var low :- ReadHex(t, 8);
      if 0xDC00 <= low < 0xE000 then Some(((0x1_0000 + 0x400 * (code - 0xD800) + (low - 0xDC00)) as char, 12)) else None
  }

  /** The escape sequence at the start of t: the character it stands for and its length. */
  function ReadEscape(t: string): Option<(char, nat)>
    requires t != "" && t[0] == '\\'
  {
    if |t| < 2 then None
    else match t[1]
      case '"' => Some(('"', 2))
      case '\\' => Some(('\\', 2))
      case '/' => Some(('/', 2))
      case 'b' => Some(('\U{08}', 2))
      case 'f' => Some(('\U{0c}', 2))
      case 'n' => Some(('\n', 2))
      case 'r' => Some(('\r', 2))
      case 't' => Some(('\t', 2))
      case 'u' => ReadUnicode(t)
      case _ => None
  }

  /** Reads a string after its opening quote: its value, and what follows the closing quote. */
  function ParseString(t: string): (r: Option<(string, string)>)
    ensures r.Some? ==> |r.value.0| + 1 + |r.value.1| <= |t|
  {
    if t == "" || t[0] < ' ' then None
    else if t[0] == '"' then Some(("", t[1..]))
    else if t[0] != '\\' then
      var rest := ParseString(t[1..]);
      if rest.None? then None else Some(([t[0]] + rest.value.0, rest.value.1))
    else
      var e := ReadEscape(t);
      if e.None? then None else
        var rest := ParseString(t[e.value.1..]);
        if rest.None? then None else Some(([e.value.0] + rest.value.0, rest.value.1))
  }

  /** Bytes that stand for themselves inside a JSON string. */
  predicate Plain(s: string) {
    forall i :: 0 <= i < |s| ==> s[i] >= ' ' && s[i] != '"' && s[i] != '\\'
  }

  // ---- the escaper ----

  function EscapeByte(c: char): (e: string)
    ensures 1 <= |e| <= 6
  {
    match c
    case '"' => "\\\""
    case '\\' => "\\\\"
    case '\n' => "\\n"
    case '\r' => "\\r"
    case '\t' => "\\t"
    case _ =>
      if c < ' ' then "\\u00" + [HEX_DIGITS[c as int / 16], HEX_DIGITS[c as int % 16]] else [c]
  }

  function Escape(s: string): (e: string)
    ensures |s| <= |e| <= 6 * |s|
  {
    if s == "" then "" else Escape(s[..|s| - 1]) + EscapeByte(s[|s| - 1])
  }

  lemma PlainByteIsKept(c: char)
    ensures |EscapeByte(c)| == 1 <==> Plain([c])
    ensures |EscapeByte(c)| == 1 ==> EscapeByte(c) == [c]
  {
  }

  /** Nothing is escaped that need not be: the escape is no longer than the text if and only if every byte stands for
      itself, and it is the text then. */
  lemma {:induction false} PlainIsKept(s: string)
    ensures |Escape(s)| == |s| <==> Plain(s)
    ensures Plain(s) ==> Escape(s) == s
  {
    hide EscapeByte;
    if s != "" {
      var n := |s| - 1;
      PlainIsKept(s[..n]);
      PlainByteIsKept(s[n]);
      assert [s[n]][0] == s[n] && s == s[..n] + [s[n]];
      assert Plain(s) <==> Plain(s[..n]) && Plain([s[n]]);
    }
  }

  /** How much of s goes into a buffer of outsz bytes: the loop stops when fewer than 8 are left. */
  function Fitting(s: string, outsz: nat): (k: nat)
    ensures k <= |s|
  {
    if s == "" then 0 else
      var k := Fitting(s[..|s| - 1], outsz);
      if k == |s| - 1 && |Escape(s[..|s| - 1])| + 7 < outsz then |s| else k
  }

  method Put(out: array<char>, o: nat, e: string)
    requires o + |e| <= out.Length
    modifies out
    ensures out[..o + |e|] == old(out[..o]) + e
  {
    for j := 0 to |e|
      invariant out[..o + j] == old(out[..o]) + e[..j]
    {
      out[o + j] := e[j];
    }
  }

  method JsonEscape(s: string, out: array<char>) returns (o: nat)
    requires '\0' !in s
    modifies out
    ensures out.Length > 0 ==> o < out.Length && out[o] == '\0' && out[..o] == Escape(s[..Fitting(s, out.Length)])
  {
    hide EscapeByte;
    o := 0;
    if out.Length == 0 {
      return;
    }
    var i := 0;
    while i < |s| && o + 7 < out.Length
      invariant i <= |s| && o < out.Length
      invariant Fitting(s[..i], out.Length) == i
      invariant out[..o] == Escape(s[..i])
    {
      assert s[..i + 1][..i] == s[..i];
      var e := EscapeByte(s[i]);
      Put(out, o, e);
      o := o + |e|;
      i := i + 1;
    }
    FittingStops(s, out.Length, i);
    out[o] := '\0';
  }

  lemma {:induction false} FittingStops(s: string, outsz: nat, i: nat)
    requires i <= |s| && Fitting(s[..i], outsz) == i
    requires i == |s| || |Escape(s[..i])| + 7 >= outsz
    ensures Fitting(s, outsz) == i
  {
    if i == |s| {
      assert s[..i] == s;
    } else if i < |s| - 1 {
      assert s[..|s| - 1][..i] == s[..i];
      FittingStops(s[..|s| - 1], outsz, i);
    }
  }

  /** Everything goes in exactly when eight bytes are still free before the last byte; a buffer of
      6 * len + 2 bytes is always enough. */
  lemma {:induction false} FittingAll(s: string, outsz: nat)
    ensures Fitting(s, outsz) == |s| <==> s == "" || |Escape(s[..|s| - 1])| + 7 < outsz
    ensures 6 * |s| + 1 < outsz ==> Fitting(s, outsz) == |s|
  {
    if |s| > 1 {
      var t := s[..|s| - 1];
      FittingAll(t, outsz);
      assert |Escape(t[..|t| - 1])| <= |Escape(t)|;
    }
  }

  // ---- what a reader sees ----

  lemma EscapedByteReads(c: char, rest: string)
    ensures var e := EscapeByte(c);
            if e == [c] then c >= ' ' && c != '"' && c != '\\'
            else e[0] == '\\' && ReadEscape(e + rest) == Some((c, |e|))
  {
    if EscapeByte(c) != [c] && c < ' ' && c != '\n' && c != '\r' && c != '\t' {
      HexDigitReads(c as int / 16);
      HexDigitReads(c as int % 16);
    }
  }

  lemma HexDigitReads(n: nat)
    requires n < 16
    ensures IsHex(HEX_DIGITS[n]) && HexValue(HEX_DIGITS[n]) == n
  {
  }

  lemma EscapedByteParses(c: char, t: string)
    requires ParseString(t).Some?
    ensures ParseString(EscapeByte(c) + t) == Some(([c] + ParseString(t).value.0, ParseString(t).value.1))
  {
    hide EscapeByte, ReadEscape;
    var e := EscapeByte(c);
    EscapedByteReads(c, t);
    assert (e + t)[|e|..] == t;
  }

  lemma {:induction false} EscapedPrefixParses(s: string, t: string)
    requires ParseString(t).Some?
    ensures ParseString(Escape(s) + t) == Some((s + ParseString(t).value.0, ParseString(t).value.1))
  {
    hide EscapeByte, ParseString;
    if s == "" {
      assert Escape(s) + t == t;
      assert s + ParseString(t).value.0 == ParseString(t).value.0;
    } else {
      var c := s[|s| - 1];
      EscapedByteParses(c, t);
      EscapedPrefixParses(s[..|s| - 1], EscapeByte(c) + t);
      assert Escape(s) + t == Escape(s[..|s| - 1]) + (EscapeByte(c) + t);
      assert s[..|s| - 1] + ([c] + ParseString(t).value.0) == s + ParseString(t).value.0;
    }
  }

  /** An escaped string read back gives the original bytes and stops at its own closing quote, whatever
      the bytes were and whatever comes next. */
  lemma EscapeRoundTrip(s: string, rest: string)
    ensures ParseString(Escape(s) + "\"" + rest) == Some((s, rest))
  {
    hide Escape, ReadEscape;
    var t := "\"" + rest;
    assert t[1..] == rest && ParseString(t) == Some(("", rest));
    EscapedPrefixParses(s, t);
    assert Escape(s) + "\"" + rest == Escape(s) + t;
    assert s + "" == s;
  }

  /** Plain text needs no escaping. */
  lemma {:induction false} PlainParses(s: string, rest: string)
    requires Plain(s)
    ensures ParseString(s + "\"" + rest) == Some((s, rest))
  {
    var t := s + "\"" + rest;
    if s == "" {
      assert t[1..] == rest;
    } else {
      PlainParses(s[1..], rest);
      assert t[1..] == s[1..] + "\"" + rest;
      assert [s[0]] + s[1..] == s;
    }
  }

  // ---- which unescaped text reads back as itself ----

  /** The bytes ParseString reads before the closing quote. */
  function RawLength(t: string): nat
    requires ParseString(t).Some?
  {
    |t| - 1 - |ParseString(t).value.1|
  }

  /** A quote within an escape sequence is the character it stands for. */
  lemma QuoteInEscape(t: string, r: nat)
    requires t != "" && t[0] == '\\' && ReadEscape(t).Some? && r < |t| && r < ReadEscape(t).value.1 && t[r] == '"'
    ensures r == 1 && ReadEscape(t).value.0 == '"'
  {
  }

  /** A quote among those bytes is an escaped one, and shows up earlier in the value than in the text. */
  lemma {:induction false} QuoteComesForward(t: string, r: nat) returns (q: nat)
    requires ParseString(t).Some? && r < RawLength(t) && t[r] == '"'
    ensures q < r && q < |ParseString(t).value.0| && ParseString(t).value.0[q] == '"'
  {
    hide ReadEscape;
    if t[0] != '\\' {
      q := QuoteComesForward(t[1..], r - 1);
      q := q + 1;
    } else {
      var n := ReadEscape(t).value.1;
      if r < n {
        QuoteInEscape(t, r);
        q := 0;
      } else {
        q := QuoteComesForward(t[n..], r - n);
        q := q + 1;
      }
    }
  }

  lemma {:induction false} NoQuoteInside(s: string, rest: string, q: nat)
    requires ParseString(s + "\"" + rest).Some? && ParseString(s + "\"" + rest).value.0 == s && q < |s|
    ensures s[q] != '"'
  {
    var t := s + "\"" + rest;
    if s[q] == '"' {
      var q' := QuoteComesForward(t, q);
      NoQuoteInside(s, rest, q');
    }
  }

  lemma {:induction false} SameLengthIsPlain(t: string)
    requires ParseString(t).Some? && |ParseString(t).value.0| == RawLength(t)
    ensures Plain(ParseString(t).value.0)
  {
    if t[0] != '"' && t[0] != '\\' {
      SameLengthIsPlain(t[1..]);
    }
  }

  /** Text put between quotes without escaping reads back as itself if and only if it is plain. */
  lemma RawReadsBackIffPlain(s: string, rest: string)
    ensures (ParseString(s + "\"" + rest).Some? && ParseString(s + "\"" + rest).value.0 == s) <==> Plain(s)
  {
    var t := s + "\"" + rest;
    if Plain(s) {
      PlainParses(s, rest);
    } else if ParseString(t).Some? && ParseString(t).value.0 == s {
      if RawLength(t) > |s| {
        var q := QuoteComesForward(t, |s|);
        NoQuoteInside(s, rest, q);
      } else {
        SameLengthIsPlain(t);
      }
    }
  }

  // ---- decimal numbers ----

  predicate IsDigit(c: char) { '0' <= c <= '9' }

  function Digit(n: nat): (c: char)
    requires n < 10
    ensures IsDigit(c) && c as int == '0' as int + n
  {
    ('0' as int + n) as char
  }

  function Decimal(n: nat): (t: string)
    ensures t != "" && IsDigit(t[0])
  {
    if n < 10 then [Digit(n)] else Decimal(n / 10) + [Digit(n % 10)]
  }

  function SignedDecimal(n: int): string {
    if n < 0 then "-" + Decimal(-n) else Decimal(n)
  }

  /** Continues a number whose leading digits were worth n. */
  function ParseDigits(t: string, n: nat): (r: (nat, string))
    ensures |r.1| <= |t| && (t != "" && IsDigit(t[0]) ==> |r.1| < |t|)
  {
    if t == "" || !IsDigit(t[0]) then (n, t) else ParseDigits(t[1..], 10 * n + (t[0] as int - '0' as int))
  }

  lemma {:induction false} DecimalParses(n: nat, rest: string)
    ensures ParseDigits(Decimal(n) + rest, 0) == ParseDigits(rest, n)
  {
    if n < 10 {
      assert (Decimal(n) + rest)[1..] == rest;
    } else {
      var d := [Digit(n % 10)];
      DecimalParses(n / 10, d + rest);
      assert Decimal(n) + rest == Decimal(n / 10) + (d + rest);
      assert (d + rest)[1..] == rest;
    }
  }

  lemma {:induction false} DecimalLength(n: nat, digits: nat, bound: nat)
    requires digits > 0 && n < bound && bound == Pow10(digits)
    ensures 1 <= |Decimal(n)| <= digits
  {
    if n >= 10 {
      DecimalLength(n / 10, digits - 1, Pow10(digits - 1));
    }
  }

  function Pow10(k: nat): (p: nat)
    ensures p > 0
  {
    if k == 0 then 1 else 10 * Pow10(k - 1)
  }

  // ---- the report body ----

  const OPEN := "{\"client_id\":\""
  const EVENT := ",\"event_type\":\""
  const DETAIL := ",\"detail\":\""
  const STAMP := ",\"ts\":"

  /** What follows the client id and its closing quote. */
  function Tail(event: string, detail: string, ts: int): string {
    EVENT + (event + "\"" + (DETAIL + (detail + "\"" + (STAMP + (SignedDecimal(ts) + "}")))))
  }

  /** What snprintf() is asked to format, with the client id as it is and the two escaped fields. */
  function Formatted(clientId: string, event: string, detail: string, ts: int): string {
    OPEN + (clientId + "\"" + Tail(event, detail, ts))
  }

  const CLIENT_ID_SIZE: nat := 128
  const EVENT_SIZE: nat := 64
  const DETAIL_SIZE: nat := 600
  const BODY_SIZE: nat := 1024

  /** The body ac_report() builds. */
  function Body(clientId: string, event: string, detail: string, ts: int): string {
    Truncated(Formatted(clientId, Escape(event[..Fitting(event, EVENT_SIZE)]),
                        Escape(detail[..Fitting(detail, DETAIL_SIZE)]), ts), BODY_SIZE)
  }

  lemma {:induction false} FittingBounds(s: string, outsz: nat)
    requires outsz > 0
    ensures |Escape(s[..Fitting(s, outsz)])| < outsz
  {
    if s != "" {
      var n := |s| - 1;
      FittingBounds(s[..n], outsz);
      var k := Fitting(s[..n], outsz);
      assert s[..n][..k] == s[..k];
      assert s[..|s|] == s;
    }
  }

  /** The body is never cut short. */
  lemma BodyIsNeverCut(clientId: string, event: string, detail: string, ts: int)
    requires |clientId| < CLIENT_ID_SIZE && -0x8000_0000_0000_0000 <= ts < 0x8000_0000_0000_0000
    ensures var e, d := event[..Fitting(event, EVENT_SIZE)], detail[..Fitting(detail, DETAIL_SIZE)];
            Body(clientId, event, detail, ts) == Formatted(clientId, Escape(e), Escape(d), ts)
  {
    hide Escape, Fitting, SignedDecimal;
    FittingBounds(event, EVENT_SIZE);
    FittingBounds(detail, DETAIL_SIZE);
    TimeLength(ts);
  }

  lemma TimeLength(ts: int)
    requires -0x8000_0000_0000_0000 <= ts < 0x8000_0000_0000_0000
    ensures |SignedDecimal(ts)| <= 20
  {
    assert Pow10(5) == 100000;
    assert Pow10(10) == 10000000000;
    assert Pow10(15) == 1000000000000000;
    assert Pow10(19) == 10000000000000000000;
    DecimalLength(if ts < 0 then -ts else ts, 19, Pow10(19));
  }
}
