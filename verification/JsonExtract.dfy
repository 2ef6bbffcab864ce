/** The targeted extractor json_extract_string() of src/anticheat_daemon.c. */
module JsonExtract {
  import opened Common
  import Json

  const NEEDLE_SIZE: nat := 64

  predicate IsSpace(c: char) {
    c == ' ' || '\t' <= c <= '\r'
  }

  /** The first position from i on that does not hold white space. */
  function Skip(t: string, i: nat): (q: nat)
    requires i <= |t|
    ensures i <= q <= |t| && (forall k :: i <= k < q ==> IsSpace(t[k])) && (q < |t| ==> !IsSpace(t[q]))
    decreases |t| - i
  {
    if i < |t| && IsSpace(t[i]) then Skip(t, i + 1) else i
  }

  ghost predicate Blank(t: string, i: nat, j: nat)
    requires i <= j <= |t|
  {
    forall k :: i <= k < j ==> IsSpace(t[k])
  }

  predicate At(t: string, needle: string, h: nat) {
    h + |needle| <= |t| && t[h..h + |needle|] == needle
  }

  /** The quoted key at h, then optional white space, a colon, optional white space and the quote at v - 1. */
  ghost predicate Occurrence(t: string, needle: string, h: nat, v: nat) {
    && At(t, needle, h)
    && exists c :: h + |needle| <= c < v - 1 < |t| && t[c] == ':' && t[v - 1] == '"'
         && Blank(t, h + |needle|, c) && Blank(t, c + 1, v - 1)
  }

  /** The value from just after its opening quote: up to a bare quote or the end, backslashes dropped. */
  function Value(t: string): string {
    if t == "" || t[0] == '"' then ""
    else if t[0] == '\\' && |t| > 1 then [t[1]] + Value(t[2..])
    else [t[0]] + Value(t[1..])
  }

  /** memmem(): the first place from p on where needle occurs, or |t|. */
  method Search(t: string, needle: string, p: nat) returns (h: nat)
    requires p <= |t|
    ensures p <= h <= |t| && (h < |t| ==> At(t, needle, h))
    ensures forall k :: p <= k < h ==> !At(t, needle, k)
  {
    h := p;
    while h < |t| && !At(t, needle, h)
      invariant p <= h <= |t|
      invariant forall k :: p <= k < h ==> !At(t, needle, k)
    {
      h := h + 1;
    }
  }

  lemma ValueStep(t: string, q: nat)
    requires q < |t| && t[q] != '"'
    ensures if t[q] == '\\' && q + 1 < |t| then Value(t[q..]) == [t[q + 1]] + Value(t[q + 2..])
            else Value(t[q..]) == [t[q]] + Value(t[q + 1..])
  {
    assert t[q..][1..] == t[q + 1..];
    if q + 1 < |t| {
      assert t[q..][2..] == t[q + 2..];
    }
  }

  /** Adds c to the text in out if it fits with a NUL after it. */
  method Append(out: array<char>, oi: nat, c: char, ghost text: string) returns (oi': nat)
    requires oi < out.Length && out[..oi] == Take(text, out.Length - 1)
    modifies out
    ensures oi' < out.Length && out[..oi'] == Take(text + [c], out.Length - 1)
  {
    oi' := oi;
    if oi + 1 < out.Length {
      out[oi] := c;
      oi' := oi + 1;
    }
  }

  /** Copies the value that starts at start into out, dropping backslashes and what does not fit. */
  method CopyValue(t: string, start: nat, out: array<char>)
    requires start <= |t| && out.Length > 0
    modifies out
    ensures var value := Take(Value(t[start..]), out.Length - 1);
            out[..|value|] == value && out[|value|] == '\0'
  {
    hide Value, Take;
    var q: nat, oi: nat := start, 0;
    ghost var done := "";
    CutEmpty(out.Length - 1);
    while q < |t| && t[q] != '"'
      invariant start <= q <= |t| && oi < out.Length
      invariant Value(t[start..]) == done + Value(t[q..])
      invariant out[..oi] == Take(done, out.Length - 1)
    {
      ValueStep(t, q);
      if t[q] == '\\' && q + 1 < |t| {
        q := q + 1;
      }
      oi := Append(out, oi, t[q], done);
      assert done + ([t[q]] + Value(t[q + 1..])) == done + [t[q]] + Value(t[q + 1..]);
      done := done + [t[q]];
      q := q + 1;
    }
    ValueEnds(t[q..]);
    assert done + "" == done;
    out[oi] := '\0';
    assert out[..oi] == Take(done, out.Length - 1);
  }

  lemma CutEmpty(n: nat)
    ensures Take("", n) == ""
  {
  }

  lemma ValueEnds(t: string)
    requires t == "" || t[0] == '"'
    ensures Value(t) == ""
  {
  }

  function Needle(key: string): string {
    "\"" + key + "\""
  }

  /** An occurrence at h is found by skipping white space twice, and its value starts in one place only. */
  lemma OccurrenceBySkipping(t: string, needle: string, h: nat, v: nat)
    requires At(t, needle, h)
    ensures Occurrence(t, needle, h, v) <==>
            var c := Skip(t, h + |needle|);
            c < |t| && t[c] == ':' && Skip(t, c + 1) == v - 1 && v - 1 < |t| && t[v - 1] == '"'
  {
    var c := Skip(t, h + |needle|);
    if Occurrence(t, needle, h, v) {
      var c' :| h + |needle| <= c' < v - 1 < |t| && t[c'] == ':' && t[v - 1] == '"'
        && Blank(t, h + |needle|, c') && Blank(t, c' + 1, v - 1);
      assert c == c';
    }
  }

  /** Where the value of an occurrence at hit starts; 0 if there is none there. */
  method MatchAt(t: string, needle: string, hit: nat) returns (v: nat)
    requires At(t, needle, hit)
    ensures v > 0 ==> v <= |t| && Occurrence(t, needle, hit, v)
    ensures v == 0 ==> forall v': nat :: !Occurrence(t, needle, hit, v')
  {
    hide Occurrence;
    var q := Skip(t, hit + |needle|);
    if q < |t| && t[q] == ':' {
      q := Skip(t, q + 1);
      if q < |t| && t[q] == '"' {
        OccurrenceBySkipping(t, needle, hit, q + 1);
        return q + 1;
      }
    }
    forall v': nat ensures !Occurrence(t, needle, hit, v') {
      OccurrenceBySkipping(t, needle, hit, v');
    }
    v := 0;
  }

  lemma OccurrenceIsAt(t: string, needle: string, h: nat, v: nat)
    ensures Occurrence(t, needle, h, v) ==> At(t, needle, h) && h < |t|
  {
  }

  /** White space, by code. */
  ghost predicate Spaces(s: string) {
    forall i :: 0 <= i < |s| ==> 9 <= s[i] as int <= 13 || s[i] as int == 32
  }

  /** From h to v the text is the key in quotes, a colon and a quote, with any white space around the colon. */
  ghost predicate Member(t: string, key: string, h: nat, v: nat) {
    h <= v <= |t| && exists a, b :: Spaces(a) && Spaces(b) && t[h..v] == "\"" + key + "\"" + a + ":" + b + "\""
  }

  lemma OccurrenceMeans(t: string, key: string, h: nat, v: nat)
    ensures Occurrence(t, Needle(key), h, v) <==> Member(t, key, h, v)
  {
    var needle := Needle(key);
    var s := h + |needle|;
    if Occurrence(t, needle, h, v) {
      var c :| s <= c < v - 1 < |t| && t[c] == ':' && t[v - 1] == '"' && Blank(t, s, c) && Blank(t, c + 1, v - 1);
      var a, b := t[s..c], t[c + 1..v - 1];
      assert t[h..v] == needle + a + ":" + b + "\"";
      assert Spaces(a) && Spaces(b);
    }
    if Member(t, key, h, v) {
      var a, b :| Spaces(a) && Spaces(b) && t[h..v] == "\"" + key + "\"" + a + ":" + b + "\"";
      MemberOccurs(t, key, h, v, a, b);
    }
  }

  lemma MemberOccurs(t: string, key: string, h: nat, v: nat, a: string, b: string)
    requires h <= v <= |t| && Spaces(a) && Spaces(b) && t[h..v] == "\"" + key + "\"" + a + ":" + b + "\""
    ensures Occurrence(t, Needle(key), h, v)
  {
    var needle := Needle(key);
    var s, c := h + |needle|, h + |needle| + |a|;
    var all := needle + a + ":" + b + "\"";
    assert t[h..v] == all && v == c + 2 + |b|;
    assert t[h..s] == all[..|needle|] == needle;
    forall k | s <= k < c ensures t[k] == a[k - s] {
      assert t[k] == t[h..v][k - h];
    }
    forall k | c + 1 <= k < v - 1 ensures t[k] == b[k - c - 1] {
      assert t[k] == t[h..v][k - h];
    }
    assert t[c] == t[h..v][c - h] && t[v - 1] == t[h..v][v - 1 - h];
  }

  /** For every text: found exactly when the quoted key occurs followed by a colon and a quote, and then the
      value is that of the first such occurrence. A key too long for the 64-byte needle is never found. */
  method ExtractString(t: string, key: string, out: array<char>) returns (found: bool, ghost h: nat, ghost v: nat)
    requires out.Length > 0
    modifies out
    ensures found <==> |key| < 62 && exists h': nat, v': nat :: Member(t, key, h', v')
    ensures found ==>
              && v <= |t| && Member(t, key, h, v)
              && (forall h': nat, v': nat :: Member(t, key, h', v') ==> h <= h')
              && var value := Take(Value(t[v..]), out.Length - 1); out[..|value|] == value && out[|value|] == '\0'
    ensures !found ==> out[..] == old(out[..])
  {
    hide Occurrence, Value, At, Member;
    h, v := 0, 0;
    var needle := Needle(key);
    if |needle| >= NEEDLE_SIZE {
      return false, 0, 0;
    }
    forall h': nat, v': nat ensures Occurrence(t, needle, h', v') ==> At(t, needle, h') && h' < |t| {
      OccurrenceIsAt(t, needle, h', v');
    }
    forall h': nat, v': nat ensures Occurrence(t, needle, h', v') <==> Member(t, key, h', v') {
      OccurrenceMeans(t, key, h', v');
    }
    var p := 0;
    while p < |t|
      invariant p <= |t| && out[..] == old(out[..])
      invariant forall h': nat, v': nat :: Occurrence(t, needle, h', v') ==> p <= h'
    {
      var hit := Search(t, needle, p);
      if hit == |t| {
        return false, 0, 0;
      }
      var start := MatchAt(t, needle, hit);
      if start > 0 {
        CopyValue(t, start, out);
        return true, hit, start;
      }
      p := hit + 1;
    }
    found := false;
  }

  // ---- what the value means ----

  /** Backslashes only in front of a quote, a backslash or a slash, which all stand for themselves. */
  predicate SelfEscapes(t: string) {
    t == "" || t[0] == '"' ||
    if t[0] == '\\' then |t| > 1 && (t[1] == '"' || t[1] == '\\' || t[1] == '/') && SelfEscapes(t[2..])
    else SelfEscapes(t[1..])
  }

  lemma OneCopied(t: string, rest: string)
    requires t != "" && Json.IsHex(t[0]) && rest == t[1..]
    ensures |Value(t)| == 1 + |Value(rest)|
  {
  }

  lemma UnicodeEscapeIsCopied(t: string)
    requires |t| >= 6 && t[0] == '\\' && t[1] == 'u' && forall i :: 2 <= i < 6 ==> Json.IsHex(t[i])
    ensures |Value(t)| == 5 + |Value(t[6..])|
  {
    OneCopied(t[2..], t[3..]);
    OneCopied(t[3..], t[4..]);
    OneCopied(t[4..], t[5..]);
    OneCopied(t[5..], t[6..]);
  }

  /** Either a Unicode escape, copied byte by byte, or a two-byte one, which stands for its second byte exactly when
      that is a quote, a backslash or a slash. */
  lemma EscapeMeans(t: string)
    requires t != "" && t[0] == '\\' && Json.ReadEscape(t).Some?
    ensures 2 <= Json.ReadEscape(t).value.1 <= |t|
    ensures t[1] == 'u' ==> |Value(t)| >= 5 + |Value(t[Json.ReadEscape(t).value.1..])|
    ensures t[1] != 'u' ==>
              && Json.ReadEscape(t).value.1 == 2
              && (Json.ReadEscape(t).value.0 == t[1] <==> t[1] == '"' || t[1] == '\\' || t[1] == '/')
  {
    if t[1] == 'u' {
      UnicodeEscapeIsCopied(t);
      if Json.ReadEscape(t).value.1 == 12 {
        UnicodeEscapeIsCopied(t[6..]);
        assert t[6..][6..] == t[12..];
      }
    }
  }

  lemma {:induction false} ValueIsNoShorter(t: string)
    requires Json.ParseString(t).Some?
    ensures |Value(t)| >= |Json.ParseString(t).value.0|
  {
    hide Json.ReadEscape;
    if t[0] == '\\' {
      EscapeMeans(t);
      ValueIsNoShorter(t[Json.ReadEscape(t).value.1..]);
    } else if t[0] != '"' {
      ValueIsNoShorter(t[1..]);
    }
  }

  /** The extractor agrees with section 7 of RFC 8259 on those strings and on no others. */
  lemma {:induction false} AgreesWithJson(t: string)
    requires Json.ParseString(t).Some?
    ensures Value(t) == Json.ParseString(t).value.0 <==> SelfEscapes(t)
  {
    hide Json.ReadEscape;
    if t[0] == '\\' {
      EscapeMeans(t);
      if t[1] == 'u' {
        ValueIsNoShorter(t[Json.ReadEscape(t).value.1..]);
      } else {
        AgreesWithJson(t[2..]);
        SameTail(t[1], Value(t[2..]), Json.ReadEscape(t).value.0, Json.ParseString(t[2..]).value.0);
      }
    } else if t[0] != '"' {
      AgreesWithJson(t[1..]);
      SameTail(t[0], Value(t[1..]), t[0], Json.ParseString(t[1..]).value.0);
    }
  }

  /** The two part ways: an escaped newline is extracted as the letter n. */
  lemma NewlineIsExtractedAsLetter()
    ensures Json.ParseString("\\n\"") == Some(("\n", "")) && Value("\\n\"") == "n"
  {
    var t := "\\n\"";
    assert t[2..] == "\"" && "\""[1..] == "";
    assert Json.ReadEscape(t) == Some(('\n', 2));
    assert Json.ParseString(t[2..]) == Some(("", ""));
    assert ['\n'] + "" == "\n";
  }

  lemma SameTail(a: char, s: string, b: char, t: string)
    ensures [a] + s == [b] + t <==> a == b && s == t
  {
    assert ([a] + s)[1..] == s && ([b] + t)[1..] == t;
  }
}
