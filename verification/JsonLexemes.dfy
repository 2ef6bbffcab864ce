/** What the reader of JsonReader.dfy makes of numbers and of Unicode escapes, by the digits: sections 6 and 7 of
    RFC 8259. */
module JsonLexemes {
  import opened Common
  import opened Json
  import opened JsonReader

  ghost predicate AllDigits(s: string) {
    forall i :: 0 <= i < |s| ==> 48 <= s[i] as int < 58
  }

  /** Each digit times its power of ten. */
  ghost function Worth(s: string): nat
    requires AllDigits(s)
  {
    if s == "" then 0 else (s[0] as int - 48) * Pow10(|s| - 1) + Worth(s[1..])
  }

  /** The text after a number does not go on with it. */
  ghost predicate Ends(rest: string) {
    rest == "" || (!IsDigit(rest[0]) && rest[0] != '.' && rest[0] != 'e' && rest[0] != 'E')
  }

  lemma {:induction false} DigitsRead(d: string, rest: string, n: nat)
    requires AllDigits(d) && (rest == "" || !IsDigit(rest[0]))
    ensures ParseDigits(d + rest, n) == (n * Pow10(|d|) + Worth(d), rest)
    decreases d
  {
    var t := d + rest;
    if d == "" {
      assert t == rest;
    } else {
      var x := d[0] as int - 48;
      assert t[0] == d[0] && t[1..] == d[1..] + rest;
      DigitsRead(d[1..], rest, 10 * n + x);
      Shift(n, x, Pow10(|d| - 1));
    }
  }

  lemma Shift(n: nat, x: nat, p: nat)
    ensures (10 * n + x) * p == n * (10 * p) + x * p
  {
  }

  lemma DigitsReadFromNothing(d: string, rest: string)
    requires AllDigits(d) && (rest == "" || !IsDigit(rest[0]))
    ensures ParseDigits(d + rest, 0) == (Worth(d), rest)
  {
    hide Worth, ParseDigits;
    DigitsRead(d, rest, 0);
  }

  lemma IntegerReads(i: string, rest: string)
    requires AllDigits(i) && i != "" && (i[0] == '0' ==> |i| == 1) && (rest == "" || !IsDigit(rest[0]))
    ensures ReadInteger(i + rest) == Some((Worth(i), rest))
  {
    var t := i + rest;
    assert t[0] == i[0];
    DigitsRead(i, rest, 0);
    if i[0] == '0' {
      assert t[1..] == rest && i[1..] == "";
    }
  }

  lemma FractionReads(f: string, rest: string)
    requires AllDigits(f) && (rest == "" || (!IsDigit(rest[0]) && rest[0] != '.'))
    ensures ReadFraction((if f == "" then "" else "." + f) + rest) == (Ratio(Worth(f), |f|), rest)
  {
    hide Worth, Ratio, ParseDigits;
    if f == "" {
      assert "" + rest == rest;
      NoFraction();
    } else {
      DigitsReadFromNothing(f, rest);
      PointReads("." + f + rest, f, rest);
    }
  }

  lemma PointReads(t: string, f: string, rest: string)
    requires t == "." + f + rest && f != "" && IsDigit(f[0]) && ParseDigits(f + rest, 0).1 == rest
    ensures ReadFraction(t) == (Ratio(ParseDigits(f + rest, 0).0, |f|), rest)
  {
    hide Ratio, ParseDigits;
    assert t[1..] == f + rest;
    assert |t| == 1 + |f| + |rest|;
  }

  /** How an exponent begins. */
  ghost predicate Exponent(x: string) {
    x in {"e", "E", "e+", "E+", "e-", "E-"}
  }

  lemma ExponentReads(x: string, k: string, rest: string)
    requires Exponent(x) && AllDigits(k) && k != "" && Ends(rest)
    ensures ReadExponent(x + k + rest) == (if x[|x| - 1] == '-' then -(Worth(k) as int) else Worth(k), rest)
  {
    var t := x + k + rest;
    assert t[0] == x[0];
    assert |x| == 2 ==> t[1] == x[1];
    assert t[|x|..] == k + rest;
    DigitsRead(k, rest, 0);
    if |x| == 1 {
      assert t[1] == k[0];
    }
  }

  /** Shifted by k decimal places. */
  ghost function Shifted(v: real, k: nat, right: bool): real {
    if right then v / Pow10(k) as real else v * Pow10(k) as real
  }

  /** The number the digits stand for: its integer and fraction, times the power of ten of its exponent. */
  ghost function Meant(negative: bool, i: string, f: string, x: string, k: string): real
    requires AllDigits(i) && AllDigits(f) && AllDigits(k)
  {
    var v := Shifted(Worth(i) as real + Shifted(Worth(f) as real, |f|, true), Worth(k), x != "" && x[|x| - 1] == '-');
    if negative then -v else v
  }

  lemma ScaledIsMeant(negative: bool, i: string, f: string, x: string, k: string)
    requires AllDigits(i) && AllDigits(f) && AllDigits(k)
    ensures var e := if x != "" && x[|x| - 1] == '-' then -(Worth(k) as int) else Worth(k);
            var v := Scaled(Worth(i) as real + Ratio(Worth(f), |f|), e);
            Meant(negative, i, f, x, k) == if negative then -v else v
  {
    hide Worth, Shifted, Scaled, Ratio;
    RatioMeans(Worth(f), |f|);
    ScaledMeans(Worth(i) as real + Ratio(Worth(f), |f|), Worth(k));
  }

  lemma RatioMeans(n: nat, digits: nat)
    ensures Ratio(n, digits) == Shifted(n as real, digits, true)
  {
  }

  lemma ScaledMeans(v: real, k: nat)
    ensures Scaled(v, k) == Shifted(v, k, false) && Scaled(v, -(k as int)) == Shifted(v, k, true)
  {
    if k == 0 {
      assert Pow10(k) as real == 1.0;
    }
  }

  /** Every number is read as what its digits stand for, and no further. */
  lemma NumbersAreRead(negative: bool, i: string, f: string, x: string, k: string, rest: string)
    requires AllDigits(i) && i != "" && (i[0] == '0' ==> |i| == 1) && AllDigits(f)
    requires AllDigits(k) && if x == "" then k == "" else Exponent(x) && k != ""
    requires Ends(rest)
    ensures var t := (if negative then "-" else "") + i + (if f == "" then "" else "." + f) + x + k + rest;
            ReadNumber(t) == Some((Meant(negative, i, f, x, k), rest))
  {
    hide ReadInteger, ReadFraction, ReadExponent, Worth, Pow10, ReadNumber, Meant;
    var point := if f == "" then "" else "." + f;
    var t2 := x + k + rest;
    var t1 := point + t2;
    var t := (if negative then "-" else "") + i + point + x + k + rest;
    assert t == (if negative then "-" else "") + (i + t1);
    PartsRead(i, f, x, k, rest);
    Assembled(negative, i, f, x, k, t1, t2, rest);
  }

  lemma PartsRead(i: string, f: string, x: string, k: string, rest: string)
    requires AllDigits(i) && i != "" && (i[0] == '0' ==> |i| == 1) && AllDigits(f)
    requires AllDigits(k) && if x == "" then k == "" else Exponent(x) && k != ""
    requires Ends(rest)
    ensures var t2 := x + k + rest;
            var t1 := (if f == "" then "" else "." + f) + t2;
            && ReadInteger(i + t1) == Some((Worth(i), t1))
            && ReadFraction(t1) == (Ratio(Worth(f), |f|), t2)
            && ReadExponent(t2) == (if x != "" && x[|x| - 1] == '-' then -(Worth(k) as int) else Worth(k), rest)
  {
    hide ReadInteger, ReadFraction, ReadExponent, Worth, Ratio;
    var t2 := x + k + rest;
    var t1 := (if f == "" then "" else "." + f) + t2;
    if x == "" {
      assert t2 == rest;
      NoExponent(rest);
      PowerOfNothing();
    } else {
      assert t2[0] == x[0];
      ExponentReads(x, k, rest);
    }
    FractionReads(f, t2);
    assert f != "" ==> t1[0] == '.';
    assert f == "" ==> t1 == t2;
    IntegerReads(i, t1);
  }

  lemma Assembled(negative: bool, i: string, f: string, x: string, k: string, t1: string, t2: string, rest: string)
    requires AllDigits(i) && i != "" && AllDigits(f) && AllDigits(k)
    requires ReadInteger(i + t1) == Some((Worth(i), t1)) && ReadFraction(t1) == (Ratio(Worth(f), |f|), t2)
    requires ReadExponent(t2) == (if x != "" && x[|x| - 1] == '-' then -(Worth(k) as int) else Worth(k), rest)
    ensures ReadNumber((if negative then "-" else "") + (i + t1)) == Some((Meant(negative, i, f, x, k), rest))
  {
    hide ReadInteger, ReadFraction, ReadExponent, Worth, Scaled, Ratio, Meant;
    var t := (if negative then "-" else "") + (i + t1);
    ScaledIsMeant(negative, i, f, x, k);
    if negative {
      assert t[0] == '-' && t[1..] == i + t1;
    } else {
      assert t == i + t1 && t[0] == i[0];
    }
  }

  lemma NoExponent(rest: string)
    requires Ends(rest)
    ensures ReadExponent(rest) == (0, rest)
  {
  }

  lemma NoFraction()
    ensures Worth("") == 0 && Ratio(0, 0) == 0.0
  {
  }

  lemma PowerOfNothing()
    ensures Worth("") == 0 && Pow10(0) == 1
  {
  }

  // ---- Unicode escapes ----

  ghost predicate AllHex(s: string) {
    forall i :: 0 <= i < |s| ==> Nibble(s[i] as int) < 16
  }

  /** The value of a hexadecimal digit of either case, by its ASCII code; 16 for any other character. */
  ghost function Nibble(code: int): nat {
    if 48 <= code < 58 then code - 48 else if 65 <= code < 71 then code - 55 else if 97 <= code < 103 then code - 87
    else 16
  }

  ghost function Unit(h: string): nat
    requires |h| == 4
  {
    4096 * Nibble(h[0] as int) + 256 * Nibble(h[1] as int) + 16 * Nibble(h[2] as int) + Nibble(h[3] as int)
  }

  lemma HexMeans(c: char)
    ensures IsHex(c) <==> Nibble(c as int) < 16
    ensures IsHex(c) ==> HexValue(c) == Nibble(c as int)
  {
  }

  lemma HexReads(t: string, i: nat)
    requires |t| >= i + 4
    ensures ReadHex(t, i) == if AllHex(t[i..i + 4]) then Some(Unit(t[i..i + 4])) else None
  {
    hide Nibble, IsHex, HexValue;
    var h := t[i..i + 4];
    assert h[0] == t[i] && h[1] == t[i + 1] && h[2] == t[i + 2] && h[3] == t[i + 3];
    HexMeans(h[0]);
    HexMeans(h[1]);
    HexMeans(h[2]);
    HexMeans(h[3]);
  }

  /** An escaped UTF-16 unit that is no surrogate is the character with that number; a high surrogate and a low one
      make the character the two stand for; nothing else is read. */
  lemma EscapesAreRead(t: string)
    requires |t| >= 6 && t[0] == '\\' && t[1] == 'u'
    ensures var h := t[2..6];
            var pair := |t| >= 12 && t[6..8] == "\\u" && AllHex(t[8..12]) && 0xDC00 <= Unit(t[8..12]) <= 0xDFFF;
            ReadEscape(t) ==
            if !AllHex(h) then None
            else if Unit(h) < 0xD800 || 0xDFFF < Unit(h) then Some((Unit(h) as char, 6))
            else if Unit(h) <= 0xDBFF && pair
            then Some(((0x1_0000 + (Unit(h) - 0xD800) * 0x400 + (Unit(t[8..12]) - 0xDC00)) as char, 12))
            else None
  {
    hide AllHex, Unit, ReadHex;
    HexReads(t, 2);
    if |t| >= 12 {
      HexReads(t, 8);
      assert t[6..8] == [t[6], t[7]];
    }
    TooShort(t);
  }

  lemma TooShort(t: string)
    ensures |t| < 12 ==> ReadHex(t, 8) == None
  {
  }
}
