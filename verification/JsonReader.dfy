/** Reading a JSON object as json.loads() does for server/ac_server.py, token by token, and what such a reader makes of
    a report body whatever the client id in it. A member that comes twice counts the last time. */
module JsonReader {
  import opened Common
  import opened Json

  // ---- numbers and literals, sections 3 and 6 of RFC 8259 ----

  /** No leading zeros: after a 0 the number goes on only with a fraction or an exponent. */
  function ReadInteger(t: string): (r: Option<(nat, string)>)
    ensures r.Some? ==> |r.value.1| < |t|
  {
    if t == "" || !IsDigit(t[0]) then None
    else if t[0] == '0' then Some((0, t[1..]))
    else Some(ParseDigits(t, 0))
  }

  /** n with the decimal point that many digits from its end. */
  function Ratio(n: nat, digits: nat): real {
    n as real / Pow10(digits) as real
  }

  function ReadFraction(t: string): (r: (real, string))
    ensures |r.1| <= |t|
  {
    if |t| >= 2 && t[0] == '.' && IsDigit(t[1]) then
      var (n, rest) := ParseDigits(t[1..], 0);
      (Ratio(n, |t| - 1 - |rest|), rest)
    else (0.0, t)
  }

  function ReadExponent(t: string): (r: (int, string))
    ensures |r.1| <= |t|
  {
    if t == "" || (t[0] != 'e' && t[0] != 'E') then (0, t) else
      var digits := if |t| >= 2 && (t[1] == '+' || t[1] == '-') then t[2..] else t[1..];
      if digits == "" || !IsDigit(digits[0]) then (0, t) else
        var (n, rest) := ParseDigits(digits, 0);
        (if t[1] == '-' then -(n as int) else n, rest)
  }

  function Scaled(v: real, e: int): real {
    if e >= 0 then v * Pow10(e) as real else v / Pow10(-e) as real
  }

  function ReadNumber(t: string): (r: Option<(real, string)>)
    ensures r.Some? ==> |r.value.1| < |t|
  {
    var negative := t != "" && t[0] == '-';
    var (n, t1) :- ReadInteger(if negative then t[1..] else t);
    var (f, t2) := ReadFraction(t1);
    var (e, t3) := ReadExponent(t2);
    var v := Scaled(n as real + f, e);
    Some((if negative then -v else v, t3))
  }

  function ReadWord(word: string, v: Value, t: string): Option<(Value, string)> {
    if word <= t then Some((v, t[|word|..])) else None
  }

  function OrElse<T>(a: Option<T>, b: Option<T>): Option<T> {
    if a.Some? then a else b
  }

  /** A number or a word. A boolean counts as a number for the server; the last three are Python's own. */
  function ReadScalar(t: string): (r: Option<(Value, string)>)
    ensures r.Some? ==> |r.value.1| < |t|
  {
    var number := ReadNumber(t);
    OrElse(ReadWord("true", Number(1.0), t), OrElse(ReadWord("false", Number(0.0), t),
    OrElse(ReadWord("null", Other, t),
    OrElse(ReadWord("NaN", Other, t), OrElse(ReadWord("Infinity", Other, t), OrElse(ReadWord("-Infinity", Other, t),
    if number.Some? then Some((Number(number.value.0), number.value.1)) else None))))))
  }

  // ---- tokens ----

  datatype Token = Mark(c: char) | Str(s: string) | Scalar(v: Value)

  predicate IsSpace(c: char) {
    c == ' ' || c == '\t' || c == '\n' || c == '\r'
  }

  predicate IsMark(c: char) {
    c == '{' || c == '}' || c == '[' || c == ']' || c == ',' || c == ':'
  }

  /** The token at the start of t, which is not white space, and what follows it. */
  function NextToken(t: string): (r: Option<(Token, string)>)
    requires t != ""
    ensures r.Some? ==> |r.value.1| < |t|
  {
    if IsMark(t[0]) then Some((Mark(t[0]), t[1..]))
    else if t[0] == '"' then
      var (s, rest) :- ParseString(t[1..]);
      Some((Str(s), rest))
    else
      var (v, rest) :- ReadScalar(t);
      Some((Scalar(v), rest))
  }

  // ---- structure ----

  datatype Frame = Obj | Arr

  datatype Mode = WantValue | WantValueOrClose | WantKey | WantKeyOrClose | WantColon | AfterValue | Finished

  /** Where the reader is: the brackets that are open, the members of the outermost object so far, and the key of the
      member it is reading. */
  datatype State = State(mode: Mode, stack: seq<Frame>, fields: map<string, Value>, key: string)

  predicate Inside(st: State, f: Frame) {
    st.stack != [] && st.stack[|st.stack| - 1] == f
  }

  /** A value was read; members of inner objects are not kept. */
  function Store(st: State, v: Value): State {
    st.(mode := AfterValue, fields := if |st.stack| == 1 then st.fields[st.key := v] else st.fields)
  }

  function Keyed(st: State, key: string): State {
    st.(mode := WantColon, key := if |st.stack| == 1 then key else st.key)
  }

  function Push(st: State, f: Frame): State {
    st.(mode := if f.Obj? then WantKeyOrClose else WantValueOrClose, stack := st.stack + [f])
  }

  function Pop(st: State): State
    requires st.stack != []
  {
    var outer := st.(stack := st.stack[..|st.stack| - 1]);
    if outer.stack == [] then outer.(mode := Finished) else Store(outer, Other)
  }

  function Step(st: State, token: Token): Option<State> {
    match st.mode
    case WantValue | WantValueOrClose =>
      match token {
        case Str(s) => Some(Store(st, Text(s)))
        case Scalar(v) => Some(Store(st, v))
        case Mark(c) =>
          if c == '{' then Some(Push(st, Obj)) else if c == '[' then Some(Push(st, Arr))
          else if c == ']' && st.mode.WantValueOrClose? && Inside(st, Arr) then Some(Pop(st)) else None
      }
    case WantKey | WantKeyOrClose =>
      if token.Str? then Some(Keyed(st, token.s))
      else if token == Mark('}') && st.mode.WantKeyOrClose? && Inside(st, Obj) then Some(Pop(st)) else None
    case WantColon => if token == Mark(':') then Some(st.(mode := WantValue)) else None
    case AfterValue =>
      if token == Mark(',') && Inside(st, Obj) then Some(st.(mode := WantKey))
      else if token == Mark(',') && Inside(st, Arr) then Some(st.(mode := WantValue))
      else if token == Mark('}') && Inside(st, Obj) then Some(Pop(st))
      else if token == Mark(']') && Inside(st, Arr) then Some(Pop(st)) else None
    case Finished => None
  }

  /** The state after all of t, if it is made of whole tokens in an allowed order. */
  function Scan(st: State, t: string): Option<State>
    decreases |t|
  {
    if t == "" then Some(st)
    else if IsSpace(t[0]) then Scan(st, t[1..])
    else
      var (token, rest) :- NextToken(t);
      var st' :- Step(st, token);
      Scan(st', rest)
  }

  function SkipSpace(t: string): string {
    if t != "" && IsSpace(t[0]) then SkipSpace(t[1..]) else t
  }

  const START := State(WantKeyOrClose, [Obj], map[], "")

  /** The members of the object that is all of the text, up to white space. */
  function ReadObject(text: string): Option<map<string, Value>> {
    var t := SkipSpace(text);
    if t == "" || t[0] != '{' then None else
      var st :- Scan(START, t[1..]);
      if st.mode.Finished? then Some(st.fields) else None
  }

  // ---- reading on past a closing quote ----

  predicate EndsInQuote(x: string) {
    x != "" && x[|x| - 1] == '"'
  }

  lemma ReadHexExtends(x: string, y: string, i: nat)
    requires EndsInQuote(x) && i < |x|
    ensures ReadHex(x + y, i) == ReadHex(x, i)
    ensures ReadHex(x, i).Some? ==> i + 4 < |x|
  {
    var n := |x| - 1;
    assert (x + y)[n] == '"' && !IsHex('"');
    if i + 4 > n {
      assert n == i || n == i + 1 || n == i + 2 || n == i + 3;
    }
  }

  lemma ReadEscapeExtends(x: string, y: string)
    requires EndsInQuote(x) && x[0] == '\\'
    ensures ReadEscape(x + y) == ReadEscape(x)
    ensures ReadEscape(x).Some? ==> 2 <= ReadEscape(x).value.1 <= |x|
  {
    hide ReadHex;
    var t := x + y;
    assert |x| >= 2 && t[1] == x[1];
    if x[1] == 'u' {
      assert |x| >= 3;
      ReadHexExtends(x, y, 2);
      if ReadHex(x, 2).Some? {
        assert t[6] == x[6];
        if x[6] == '\\' {
          assert |x| >= 8 && t[7] == x[7];
          if x[7] == 'u' {
            assert |x| >= 9;
            ReadHexExtends(x, y, 8);
          }
        }
      }
    }
  }

  /** A string that ends within x is the same whatever follows x. */
  lemma {:induction false} StringExtends(x: string, y: string)
    requires EndsInQuote(x) && ParseString(x).Some?
    ensures ParseString(x + y) == Some((ParseString(x).value.0, ParseString(x).value.1 + y))
    ensures ParseString(x).value.1 == "" || EndsInQuote(ParseString(x).value.1)
    decreases |x|
  {
    hide ReadEscape;
    var t := x + y;
    assert t[0] == x[0];
    if x[0] == '"' {
      assert t[1..] == x[1..] + y;
    } else if x[0] != '\\' {
      assert t[1..] == x[1..] + y;
      StringExtends(x[1..], y);
    } else {
      ReadEscapeExtends(x, y);
      var n := ReadEscape(x).value.1;
      assert t[n..] == x[n..] + y;
      StringExtends(x[n..], y);
    }
  }

  /** One that does not would have to end at the next quote after a comma. */
  lemma {:induction false} StringRunsOn(x: string, z: string)
    requires (x == "" || EndsInQuote(x)) && ParseString(x).None?
    ensures var r := ParseString(x + ",\"" + z);
            r.Some? ==> r.value.1 == z
    decreases |x|
  {
    hide ReadEscape;
    var y := ",\"" + z;
    var t := x + y;
    assert x + ",\"" + z == t;
    if x == "" {
      assert t == y && y[1..] == "\"" + z && ("\"" + z)[1..] == z;
      assert ParseString(y[1..]) == Some(("", z));
    } else if x[0] >= ' ' && x[0] != '\\' {
      assert t[0] == x[0] && t[1..] == x[1..] + y;
      assert x[1..] + y == x[1..] + ",\"" + z;
      StringRunsOn(x[1..], z);
    } else if x[0] == '\\' {
      ReadEscapeExtends(x, y);
      assert t[0] == x[0];
      if ReadEscape(x).Some? {
        var n := ReadEscape(x).value.1;
        assert t[n..] == x[n..] + y;
        assert x[n..] + y == x[n..] + ",\"" + z;
        StringRunsOn(x[n..], z);
      }
    } else {
      assert t[0] == x[0];
    }
  }

  /** What a reader of x leaves, with y after it. */
  function Before<T>(r: Option<(T, string)>, y: string): Option<(T, string)> {
    if r.None? then None else Some((r.value.0, r.value.1 + y))
  }

  predicate LeavesQuote<T>(r: Option<(T, string)>) {
    r.Some? ==> EndsInQuote(r.value.1)
  }

  lemma {:induction false} DigitsExtend(x: string, y: string, n: nat)
    requires EndsInQuote(x)
    ensures ParseDigits(x + y, n) == (ParseDigits(x, n).0, ParseDigits(x, n).1 + y)
    ensures EndsInQuote(ParseDigits(x, n).1)
    decreases |x|
  {
    assert (x + y)[0] == x[0];
    if IsDigit(x[0]) {
      assert (x + y)[1..] == x[1..] + y;
      DigitsExtend(x[1..], y, 10 * n + (x[0] as int - '0' as int));
    }
  }

  lemma IntegerExtends(x: string, y: string)
    requires EndsInQuote(x)
    ensures ReadInteger(x + y) == Before(ReadInteger(x), y) && LeavesQuote(ReadInteger(x))
  {
    hide ParseDigits;
    assert (x + y)[0] == x[0] && (x + y)[1..] == x[1..] + y;
    DigitsExtend(x, y, 0);
  }

  lemma FractionExtends(x: string, y: string)
    requires EndsInQuote(x)
    ensures ReadFraction(x + y) == (ReadFraction(x).0, ReadFraction(x).1 + y) && EndsInQuote(ReadFraction(x).1)
  {
    hide ParseDigits;
    var t := x + y;
    assert t[0] == x[0] && (|x| > 1 ==> t[1] == x[1]) && t[1..] == x[1..] + y;
    if x[0] == '.' && IsDigit(x[1]) {
      DigitsExtend(x[1..], y, 0);
    }
  }

  lemma ExponentExtends(x: string, y: string)
    requires EndsInQuote(x)
    ensures ReadExponent(x + y) == (ReadExponent(x).0, ReadExponent(x).1 + y) && EndsInQuote(ReadExponent(x).1)
  {
    hide ParseDigits;
    var t := x + y;
    assert t[0] == x[0];
    if x[0] == 'e' || x[0] == 'E' {
      assert |x| >= 2 && t[1] == x[1];
      var k := if x[1] == '+' || x[1] == '-' then 2 else 1;
      assert |x| > k && t[k..] == x[k..] + y && t[k..][0] == x[k];
      DigitsExtend(x[k..], y, 0);
    }
  }

  lemma NumberExtends(x: string, y: string)
    requires EndsInQuote(x)
    ensures ReadNumber(x + y) == Before(ReadNumber(x), y) && LeavesQuote(ReadNumber(x))
  {
    hide ReadInteger, ReadFraction, ReadExponent, Scaled;
    assert (x + y)[0] == x[0] && (x + y)[1..] == x[1..] + y;
    var k := if x[0] == '-' then 1 else 0;
    assert x[0..] == x && (x + y)[0..] == x + y;
    IntegerExtends(x[k..], y);
    var r := ReadInteger(x[k..]);
    if r.Some? {
      FractionExtends(r.value.1, y);
      ExponentExtends(ReadFraction(r.value.1).1, y);
    }
  }

  lemma WordExtends(word: string, v: Value, x: string, y: string)
    requires EndsInQuote(x) && '"' !in word
    ensures ReadWord(word, v, x + y) == Before(ReadWord(word, v, x), y) && LeavesQuote(ReadWord(word, v, x))
  {
    var t := x + y;
    if |word| <= |x| {
      assert t[..|word|] == x[..|word|] && t[|word|..] == x[|word|..] + y;
    } else {
      assert t[|x| - 1] == '"';
    }
  }

  lemma ScalarExtends(x: string, y: string)
    requires EndsInQuote(x)
    ensures ReadScalar(x + y) == Before(ReadScalar(x), y) && LeavesQuote(ReadScalar(x))
  {
    hide ReadNumber, ReadWord;
    NumberExtends(x, y);
    WordExtends("true", Number(1.0), x, y);
    WordExtends("false", Number(0.0), x, y);
    WordExtends("null", Other, x, y);
    WordExtends("NaN", Other, x, y);
    WordExtends("Infinity", Other, x, y);
    WordExtends("-Infinity", Other, x, y);
  }

  lemma TokenExtends(x: string, y: string)
    requires EndsInQuote(x) && NextToken(x).Some?
    ensures NextToken(x + y) == Before(NextToken(x), y)
    ensures NextToken(x).value.1 == "" || EndsInQuote(NextToken(x).value.1)
  {
    hide ParseString, ReadScalar;
    assert (x + y)[0] == x[0] && (x + y)[1..] == x[1..] + y;
    if x[0] == '"' {
      NoStringInNothing();
      StringExtends(x[1..], y);
    } else if !IsMark(x[0]) {
      ScalarExtends(x, y);
    }
  }

  lemma NoStringInNothing()
    ensures ParseString("").None?
  {
  }

  lemma TokenRunsOn(x: string, z: string)
    requires EndsInQuote(x) && NextToken(x).None?
    ensures var r := NextToken(x + ",\"" + z);
            r.Some? ==> r.value.1 == z
  {
    hide ParseString, ReadScalar;
    var t := x + ",\"" + z;
    assert t[0] == x[0] && t[1..] == x[1..] + ",\"" + z;
    if x[0] == '"' {
      StringRunsOn(x[1..], z);
    } else {
      assert t == x + (",\"" + z);
      ScalarExtends(x, ",\"" + z);
    }
  }

  /** A text that ends in a quote and is made of whole tokens is read as they are, whatever follows. */
  lemma {:induction false} ScanSplits(st: State, x: string, y: string)
    requires (x == "" || EndsInQuote(x)) && Scan(st, x).Some?
    ensures Scan(st, x + y) == Scan(Scan(st, x).value, y)
    decreases |x|
  {
    hide NextToken, Step;
    if x == "" {
      assert x + y == y;
    } else {
      assert (x + y)[0] == x[0];
      if IsSpace(x[0]) {
        assert (x + y)[1..] == x[1..] + y;
        ScanSplits(st, x[1..], y);
      } else {
        TokenExtends(x, y);
        ScanSplits(Step(st, NextToken(x).value.0).value, NextToken(x).value.1, y);
      }
    }
  }

  /** No state goes on with z. */
  predicate Unreadable(z: string) {
    z != "" && !IsSpace(z[0]) && NextToken(z).None?
  }

  /** A text that ends in a quote and is not made of whole tokens cannot be completed by what follows a comma,
      if that is no token outside a string. */
  lemma {:induction false} ScanFails(st: State, x: string, z: string)
    requires EndsInQuote(x) && Scan(st, x).None? && Unreadable(z)
    ensures Scan(st, x + ",\"" + z).None?
    decreases |x|
  {
    hide NextToken, Step;
    var t := x + ",\"" + z;
    assert t[0] == x[0];
    if IsSpace(x[0]) {
      assert t[1..] == x[1..] + ",\"" + z;
      ScanFails(st, x[1..], z);
    } else if NextToken(x).None? {
      TokenRunsOn(x, z);
    } else {
      var (token, rest) := NextToken(x).value;
      TokenExtends(x, ",\"" + z);
      assert t == x + (",\"" + z) && rest + (",\"" + z) == rest + ",\"" + z;
      if Step(st, token).Some? {
        ScanFails(Step(st, token).value, rest, z);
      }
    }
  }

  // ---- the part of a body after the client id ----

  function Then(st: Option<State>, rest: string): Option<State> {
    if st.None? then None else Scan(st.value, rest)
  }

  lemma ScanMark(st: State, c: char, rest: string)
    requires IsMark(c)
    ensures Scan(st, [c] + rest) == Then(Step(st, Mark(c)), rest)
  {
    hide Step;
    assert ([c] + rest)[1..] == rest;
  }

  lemma ScanString(st: State, t: string, s: string, rest: string)
    requires ParseString(t) == Some((s, rest))
    ensures Scan(st, "\"" + t) == Then(Step(st, Str(s)), rest)
  {
    hide Step, ParseString;
    assert ("\"" + t)[1..] == t;
  }

  lemma ScanScalar(st: State, t: string, v: Value, rest: string)
    requires t != "" && !IsSpace(t[0]) && !IsMark(t[0]) && t[0] != '"' && ReadScalar(t) == Some((v, rest))
    ensures Scan(st, t) == Then(Step(st, Scalar(v)), rest)
  {
    hide Step, ReadScalar;
  }

  /** After a member of this name and value. */
  function Put(st: State, key: string, v: Value): State {
    Store(Keyed(st, key), v)
  }

  predicate BetweenMembers(st: State) {
    st.mode.AfterValue? && Inside(st, Obj)
  }

  lemma KeyScans(st: State, key: string, rest: string)
    requires BetweenMembers(st) && Plain(key)
    ensures Scan(st, ",\"" + key + "\":" + rest) == Scan(Keyed(st, key).(mode := WantValue), rest)
  {
    hide Plain, Scan;
    var colon := ":" + rest;
    var t := key + "\"" + colon;
    assert ",\"" + key + "\":" + rest == [','] + ("\"" + t);
    ScanMark(st, ',', "\"" + t);
    PlainParses(key, colon);
    ScanString(st.(mode := WantKey), t, key, colon);
    ScanMark(Keyed(st, key), ':', rest);
  }

  lemma TextMemberScans(st: State, key: string, v: string, rest: string)
    requires BetweenMembers(st) && Plain(key)
    ensures Scan(st, ",\"" + key + "\":" + ("\"" + (Escape(v) + "\"" + rest))) == Scan(Put(st, key, Text(v)), rest)
    ensures BetweenMembers(Put(st, key, Text(v)))
  {
    hide Plain, Scan, Escape, ParseString;
    KeyScans(st, key, "\"" + (Escape(v) + "\"" + rest));
    EscapeRoundTrip(v, rest);
    ScanString(Keyed(st, key).(mode := WantValue), Escape(v) + "\"" + rest, v, rest);
  }

  lemma {:induction false} NoLeadingZero(n: nat)
    requires n > 0
    ensures Decimal(n)[0] != '0'
  {
    if n >= 10 {
      NoLeadingZero(n / 10);
    }
  }

  lemma DecimalIsRead(n: nat)
    ensures ReadInteger(Decimal(n) + "}") == Some((n, "}"))
  {
    var t := Decimal(n) + "}";
    if n == 0 {
      assert t[0] == '0' && t[1..] == "}";
    } else {
      hide Decimal;
      NoLeadingZero(n);
      DecimalParses(n, "}");
    }
  }

  lemma TimeIsRead(ts: int)
    ensures ReadScalar(SignedDecimal(ts) + "}") == Some((Number(ts as real), "}"))
  {
    hide Decimal, ReadInteger;
    var n: nat := if ts < 0 then -ts else ts;
    var t := SignedDecimal(ts) + "}";
    DecimalIsRead(n);
    assert ts < 0 ==> t[1..] == Decimal(n) + "}";
    assert ReadNumber(t) == Some((ts as real, "}"));
    assert IsDigit(Decimal(n)[0]);
    assert if ts < 0 then t[0] == '-' && IsDigit(t[1]) else IsDigit(t[0]);
  }

  lemma TimeMemberScans(st: State, ts: int)
    requires BetweenMembers(st)
    ensures Scan(st, ",\"ts\":" + (SignedDecimal(ts) + "}")) == Some(Pop(Put(st, "ts", Number(ts as real))))
  {
    hide Scan, ReadScalar, Decimal;
    var t := SignedDecimal(ts) + "}";
    KeyScans(st, "ts", t);
    assert ",\"" + "ts" + "\":" + t == ",\"ts\":" + t;
    TimeIsRead(ts);
    ScanScalar(Keyed(st, "ts").(mode := WantValue), t, Number(ts as real), "}");
    var last := Put(st, "ts", Number(ts as real));
    assert "}" == ['}'] + "";
    ScanMark(last, '}', "");
    NothingLeft(Pop(last));
  }

  lemma NothingLeft(st: State)
    ensures Scan(st, "") == Some(st)
  {
  }

  /** The members the daemon writes after the client id. */
  function WithTail(st: State, event: string, detail: string, ts: int): State {
    Put(Put(Put(st, "event_type", Text(event)), "detail", Text(detail)), "ts", Number(ts as real))
  }

  lemma TailScans(st: State, event: string, detail: string, ts: int)
    requires BetweenMembers(st)
    ensures Scan(st, Tail(Escape(event), Escape(detail), ts)) == Some(Pop(WithTail(st, event, detail, ts)))
  {
    hide Scan, Escape, Put;
    var last := STAMP + (SignedDecimal(ts) + "}");
    var second := DETAIL + (Escape(detail) + "\"" + last);
    TextMemberScans(st, "event_type", event, second);
    var st1 := Put(st, "event_type", Text(event));
    TextMemberScans(st1, "detail", detail, last);
    TimeMemberScans(Put(st1, "detail", Text(detail)), ts);
    EventText(Escape(event) + "\"" + second);
    DetailText(Escape(detail) + "\"" + last);
  }

  lemma EventText(rest: string)
    ensures EVENT + rest == ",\"" + "event_type" + "\":" + ("\"" + rest)
  {
  }

  lemma DetailText(rest: string)
    ensures DETAIL + rest == ",\"" + "detail" + "\":" + ("\"" + rest)
  {
  }

  /** Nowhere else can that part be read: a comma is out of place, or the colon after the first name is. */
  lemma TailFailsElsewhere(st: State, event: string, detail: string, ts: int)
    requires !BetweenMembers(st)
    ensures Scan(st, Tail(Escape(event), Escape(detail), ts)).None?
  {
    hide Scan, Escape, ParseString, SignedDecimal;
    var rest := "\"" + (Escape(event) + "\""
                + (DETAIL + (Escape(detail) + "\"" + (STAMP + (SignedDecimal(ts) + "}")))));
    var name := "event_type" + "\"" + (":" + rest);
    assert Tail(Escape(event), Escape(detail), ts) == [','] + ("\"" + name);
    ScanMark(st, ',', "\"" + name);
    if st.mode.AfterValue? && Inside(st, Arr) {
      PlainParses("event_type", ":" + rest);
      var next := st.(mode := WantValue);
      ScanString(next, name, "event_type", ":" + rest);
      ScanMark(Store(next, Text("event_type")), ':', rest);
    }
  }

  // ---- whole bodies ----

  const AT_ID := State(WantValue, [Obj], map[], "client_id")

  /** Where the client id, between its quotes, leaves the reader. */
  function AfterId(id: string): Option<State> {
    Scan(AT_ID, "\"" + id + "\"")
  }

  /** The members the reader finds up to the end of the client id, if it is then between members of the outermost
      object. */
  function IdFields(id: string): Option<map<string, Value>> {
    var st := AfterId(id);
    if st.Some? && st.value.mode.AfterValue? && st.value.stack == [Obj] then Some(st.value.fields) else None
  }

  lemma BodyScans(id: string, tail: string)
    ensures ReadObject(OPEN + (id + "\"" + tail))
         == var st := Scan(AT_ID, "\"" + id + "\"" + tail);
            if st.Some? && st.value.mode.Finished? then Some(st.value.fields) else None
  {
    hide Scan, Step;
    var rest := "\"" + id + "\"" + tail;
    var name := "client_id" + "\"" + (":" + rest);
    var t := OPEN + (id + "\"" + tail);
    assert SkipSpace(t) == t && t[1..] == "\"" + name;
    PlainParses("client_id", ":" + rest);
    ScanString(START, name, "client_id", ":" + rest);
    StepsToId();
    ScanMark(Keyed(START, "client_id"), ':', rest);
  }

  lemma StepsToId()
    ensures Step(START, Str("client_id")) == Some(Keyed(START, "client_id"))
    ensures Step(Keyed(START, "client_id"), Mark(':')) == Some(AT_ID)
  {
  }

  lemma EventNameIsUnreadable(rest: string)
    ensures Unreadable("event_type" + rest)
  {
    var z := "event_type" + rest;
    assert z[0] == 'e';
    assert ReadNumber(z).None?;
  }

  /** For every client id, event, detail and time: the body is a JSON object if and only if the id leaves the reader
      between members of the outermost object, and then the event, the detail and the time are the daemon's own. */
  lemma BodyReadsExactly(id: string, event: string, detail: string, ts: int)
    ensures ReadObject(Formatted(id, Escape(event), Escape(detail), ts))
         == if IdFields(id).None? then None
            else
              var fields := IdFields(id).value["event_type" := Text(event)];
              Some(fields["detail" := Text(detail)]["ts" := Number(ts as real)])
  {
    hide Scan, Escape, Unreadable, SignedDecimal;
    var x, y := "\"" + id + "\"", Tail(Escape(event), Escape(detail), ts);
    BodyScans(id, y);
    assert "\"" + id + "\"" + y == x + y;
    if AfterId(id).Some? {
      ScanSplits(AT_ID, x, y);
      var st := AfterId(id).value;
      if BetweenMembers(st) {
        TailScans(st, event, detail, ts);
        assert st.stack == [Obj] <==> |st.stack| == 1;
      } else {
        TailFailsElsewhere(st, event, detail, ts);
      }
    } else {
      var z := "event_type" + ("\":\"" + (Escape(event) + "\""
                 + (DETAIL + (Escape(detail) + "\"" + (STAMP + (SignedDecimal(ts) + "}"))))));
      assert y == ",\"" + z;
      EventNameIsUnreadable("\":\"" + (Escape(event) + "\""
                 + (DETAIL + (Escape(detail) + "\"" + (STAMP + (SignedDecimal(ts) + "}"))))));
      ScanFails(AT_ID, x, z);
      assert x + ",\"" + z == x + y;
    }
  }

  // ---- which ids read back ----

  /** A text member found in x is shorter than x by its quotes. */
  lemma {:induction false} TextsAreShort(st: State, x: string, k: string)
    requires Scan(st, x).Some? && k in Scan(st, x).value.fields && Scan(st, x).value.fields[k].Text?
    ensures var v := Scan(st, x).value.fields[k];
            (k in st.fields && st.fields[k] == v) || |v.text| + 2 <= |x|
    decreases |x|
  {
    if x != "" {
      if IsSpace(x[0]) {
        TextsAreShort(st, x[1..], k);
      } else {
        hide NextToken, Step;
        var (token, rest) := NextToken(x).value;
        var st' := Step(st, token).value;
        TextsAreShort(st', rest, k);
        TokenIsShort(x);
        if k in st'.fields && st'.fields[k].Text? {
          StepStores(st, token, k);
        }
      }
    }
  }

  lemma StepStores(st: State, token: Token, k: string)
    requires Step(st, token).Some? && k in Step(st, token).value.fields && Step(st, token).value.fields[k].Text?
    ensures var v := Step(st, token).value.fields[k];
            (k in st.fields && st.fields[k] == v) || (token.Str? && v == Text(token.s))
            || (token.Scalar? && v == token.v)
  {
  }

  lemma TokenIsShort(x: string)
    requires x != "" && NextToken(x).Some?
    ensures NextToken(x).value.0.Str? ==> |NextToken(x).value.0.s| + 2 <= |x|
    ensures NextToken(x).value.0.Scalar? ==> !NextToken(x).value.0.v.Text?
  {
  }

  /** A client id is read back as itself if and only if it is plain. */
  lemma IdReadsBackIffPlain(id: string)
    ensures (IdFields(id).Some? && "client_id" in IdFields(id).value && IdFields(id).value["client_id"] == Text(id))
            <==> Plain(id)
    ensures Plain(id) ==> IdFields(id) == Some(map["client_id" := Text(id)])
  {
    hide Scan, ParseString, Plain;
    var r := ParseString(id + "\"");
    assert "\"" + id + "\"" == "\"" + (id + "\"") && id + "\"" + "" == id + "\"";
    RawReadsBackIffPlain(id, "");
    if Plain(id) {
      PlainParses(id, "");
    }
    if r.Some? {
      var (s, rest) := r.value;
      ScanString(AT_ID, id + "\"", s, rest);
      var st := Store(AT_ID, Text(s));
      NothingLeft(st);
      if rest != "" && Scan(st, rest).Some? && "client_id" in Scan(st, rest).value.fields
         && Scan(st, rest).value.fields["client_id"].Text? {
        TextsAreShort(st, rest, "client_id");
      }
    } else {
      NoIdNoBody(id);
    }
  }

  lemma NoIdNoBody(id: string)
    requires ParseString(id + "\"").None?
    ensures AfterId(id).None?
  {
    assert ("\"" + id + "\"")[1..] == id + "\"";
  }

  /** Others may be read as a different one, and as further members: this one as the id a and a member z. */
  lemma SomeIdsReadAsOthers()
    ensures IdFields("a\",\"z\":\"") == Some(map["client_id" := Text("a"), "z" := Text("")])
  {
    hide Scan, ParseString, Escape;
    var id := "a\",\"z\":\"";
    var rest := ",\"z\":\"\"";
    assert "\"" + id + "\"" == "\"" + ("a" + "\"" + rest);
    PlainParses("a", rest);
    ScanString(AT_ID, "a" + "\"" + rest, "a", rest);
    var st := Store(AT_ID, Text("a"));
    NothingEscapes();
    TextMemberScans(st, "z", "", "");
    assert rest == ",\"" + "z" + "\":" + ("\"" + ("" + "\"" + ""));
    NothingLeft(Put(st, "z", Text("")));
  }

  lemma NothingEscapes()
    ensures Escape("") == ""
  {
  }
}
