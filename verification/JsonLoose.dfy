/** What the C library adds to JSON: the other forms that sscanf() and strtod() take. */
module JsonLoose {
  import opened Machine
  import opened JsonText

  predicate Spaces(s: string) { forall i :: 0 <= i < |s| ==> IsSpace(s[i]) }
  predicate AllHex(s: string) { forall i :: 0 <= i < |s| ==> IsHex(s[i]) }

  lemma {:induction false} SpacesSkipped(w: string, s: string)
    requires Spaces(w) && (s == "" || !IsSpace(s[0]))
    ensures AfterSpace(w + s) == s
    decreases |w|
  {
    if w == "" {
      assert w + s == s;
    } else {
      assert (w + s)[1..] == w[1..] + s;
      SpacesSkipped(w[1..], s);
    }
  }

  lemma {:induction false} HexRun(d: string, rest: string, width: nat)
    requires AllHex(d) && |d| <= width && (|d| == width || rest == "" || !IsHex(rest[0]))
    ensures HexDigits(d + rest, width) == |d|
    decreases |d|
  {
    if d == "" {
      assert d + rest == rest;
    } else {
      assert (d + rest)[1..] == d[1..] + rest;
      HexRun(d[1..], rest, width - 1);
    }
  }

  /** After any white space, "%4x" takes a sign, 0x, and hex digits, four characters at most, and
      makes an unsigned int of them; a minus sign gives its complement. */
  lemma ScanReads(w: string, sign: string, prefix: string, d: string, rest: string)
    requires Spaces(w) && (sign == "" || sign == "+" || sign == "-")
    requires prefix == "" || prefix == "0x" || prefix == "0X"
    requires d != "" && AllHex(d) && |sign| + |prefix| + |d| <= 4
    requires |sign| + |prefix| + |d| == 4 || rest == "" || !IsHex(rest[0])
    requires prefix == "" && d == "0" && rest != "" ==> !IsX(rest[0])
    ensures var r := Scan4x(w + (sign + (prefix + (d + rest))));
      && r.Match?
      && (sign != "-" ==> r.cp == HexNumber(d))
      && (sign == "-" ==> r.cp < U32 && (r.cp + HexNumber(d)) % U32 == 0)
  {
    hide HexNumber, HexDigits, AfterSpace, Scan4x, Scanned;
    var s, t, i := w + (sign + (prefix + (d + rest))), sign + (prefix + (d + rest)), |sign|;
    SignRead(sign, prefix, d, rest);
    SpacesSkipped(w, t);
    HexRun(d, rest, 4 - i - |prefix|);
    if prefix == "" {
      assert prefix + (d + rest) == d + rest;
      NoPrefix(d, rest);
      ScanPlain(s, t, i, d, rest);
    } else {
      ScanPrefixed(s, t, i, prefix, d, rest);
    }
    ScannedMeans(sign == "-", d);
  }

  lemma SignRead(sign: string, prefix: string, d: string, rest: string)
    requires sign == "" || sign == "+" || sign == "-"
    requires prefix == "" || prefix == "0x" || prefix == "0X"
    requires d != "" && AllHex(d)
    ensures var t := sign + (prefix + (d + rest));
      && t[|sign|..] == prefix + (d + rest) && !IsSpace(t[0])
      && (At(t, 0) == '-') == (sign == "-") && (At(t, 0) == '+') == (sign == "+")
  {
    var t := sign + (prefix + (d + rest));
    assert sign == "" ==> t == prefix + (d + rest);
    assert prefix == "" ==> prefix + (d + rest) == d + rest;
    if sign != "" {
      assert t[0] == sign[0];
    } else if prefix != "" {
      assert t[0] == prefix[0];
    } else {
      assert t[0] == d[0] && IsHex(d[0]);
    }
  }

  lemma ScanPlain(s: string, t: string, i: nat, d: string, rest: string)
    requires AfterSpace(s) == t && i <= |t| && t[i..] == d + rest && |d| + i <= 4 && d != ""
    requires i == (if At(t, 0) == '+' || At(t, 0) == '-' then 1 else 0) && AllHex(d)
    requires HexDigits(d + rest, 4 - i) == |d| && !((d + rest)[0] == '0' && IsX(At(d + rest, 1)))
    ensures Scan4x(s) == Scanned(At(t, 0) == '-', d)
  {
    hide HexNumber, HexDigits, AfterSpace, Scanned;
    assert At(t, i) == t[i..][0] && At(t, i + 1) == At(t[i..], 1);
    assert t[i..i + |d|] == t[i..][..|d|] == d;
  }

  lemma ScanPrefixed(s: string, t: string, i: nat, prefix: string, d: string, rest: string)
    requires AfterSpace(s) == t && i <= |t| && t[i..] == prefix + (d + rest) && i + 2 + |d| <= 4 && d != ""
    requires i == (if At(t, 0) == '+' || At(t, 0) == '-' then 1 else 0) && AllHex(d)
    requires (prefix == "0x" || prefix == "0X") && HexDigits(d + rest, 2 - i) == |d|
    ensures Scan4x(s) == Scanned(At(t, 0) == '-', d)
  {
    hide HexNumber, HexDigits, AfterSpace, Scanned;
    assert t[i] == t[i..][0] == prefix[0] && t[i + 1] == t[i..][1] == prefix[1];
    assert t[i + 2..] == t[i..][2..] == d + rest;
    assert t[i + 2..i + 2 + |d|] == t[i + 2..][..|d|] == d;
  }

  lemma ScannedMeans(minus: bool, d: string)
    requires d != "" && AllHex(d) && |d| <= 4
    ensures var r := Scanned(minus, d);
      && r.Match? && (!minus ==> r.cp == HexNumber(d))
      && (minus ==> r.cp < U32 && (r.cp + HexNumber(d)) % U32 == 0)
  {
    hide HexNumber;
    ScanFits(d);
  }

  lemma NoPrefix(d: string, rest: string)
    requires d != "" && AllHex(d) && (d == "0" && rest != "" ==> !IsX(rest[0]))
    ensures !((d + rest)[0] == '0' && IsX(At(d + rest, 1)))
  {
    if |d| > 1 {
      assert (d + rest)[1] == d[1];
    }
  }

  lemma ScanFits(d: string)
    requires AllHex(d) && |d| <= 4
    ensures HexNumber(d) < U32
  {
    HexBound(d);
    assert HexPower(4) == 16 * HexPower(3) == 16 * (16 * HexPower(2)) == 65536;
    HexPowerGrows(|d|, 4);
  }

  function HexPower(n: nat): nat
  {
    if n == 0 then 1 else 16 * HexPower(n - 1)
  }

  lemma {:induction false} HexPowerGrows(m: nat, n: nat)
    requires m <= n
    ensures HexPower(m) <= HexPower(n)
    decreases n
  {
    if m < n {
      HexPowerGrows(m, n - 1);
    }
  }

  lemma {:induction false} HexBound(d: string)
    requires AllHex(d)
    ensures HexNumber(d) < HexPower(|d|)
    decreases |d|
  {
    if d != "" {
      HexBound(d[..|d| - 1]);
    }
  }

  /** Nothing that is no hex digit, sign or space can start a match. */
  lemma ScanRefuses(w: string, s: string)
    requires Spaces(w) && (s == "" || !(IsSpace(s[0]) || IsHex(s[0]) || s[0] == '+' || s[0] == '-'))
    ensures Scan4x(w + s) == NoMatch
  {
    SpacesSkipped(w, s);
  }

  /** A hexadecimal integer of any length, signed or not, is a number of that value. */
  lemma HexIntegerReads(minus: bool, upper: bool, d: string, rest: string)
    requires d != "" && AllHex(d)
    requires rest == "" || !(IsHex(rest[0]) || rest[0] == '.' || rest[0] == 'p' || rest[0] == 'P')
    ensures var prefix := (if minus then "-" else "") + (if upper then "0X" else "0x");
      Strtod(prefix + (d + rest))
        == Ok(if minus then -(HexNumber(d) as real) else HexNumber(d) as real, |prefix| + |d|)
  {
    hide HexNumber, Strtod, IsX, At;
    var prefix := (if minus then "-" else "") + (if upper then "0X" else "0x");
    PrefixRead(minus, upper, d + rest);
    HexIntegerIn(prefix + (d + rest), minus, d, rest);
  }

  lemma HexIntegerIn(text: string, minus: bool, d: string, rest: string)
    requires d != "" && AllHex(d)
    requires rest == "" || !(IsHex(rest[0]) || rest[0] == '.' || rest[0] == 'p' || rest[0] == 'P')
    requires var i := if minus then 1 else 0;
      && i + 2 <= |text| && text[i + 2..] == d + rest
      && (At(text, 0) == '-') == minus && At(text, i) == '0' && IsX(At(text, i + 1))
    ensures var n := HexNumber(d) as real;
      Strtod(text) == Ok(if minus then -n else n, (if minus then 3 else 2) + |d|)
  {
    hide HexNumber, HexDigits, HexFloat, Strtod;
    var i := if minus then 1 else 0;
    HexRunAll(d, rest);
    HexFloatIs(text, i, d, rest);
    StrtodHex(text, minus, HexNumber(d) as real, i + 2 + |d|);
  }

  lemma PrefixRead(minus: bool, upper: bool, s: string)
    ensures var prefix := (if minus then "-" else "") + (if upper then "0X" else "0x");
      var text, i := prefix + s, if minus then 1 else 0;
      && |prefix| == i + 2 && text[i + 2..] == s
      && (At(text, 0) == '-') == minus && At(text, i) == '0' && IsX(At(text, i + 1))
  {
    var prefix := (if minus then "-" else "") + (if upper then "0X" else "0x");
    var text, i := prefix + s, if minus then 1 else 0;
    assert text[0] == prefix[0] && text[i] == prefix[i] && text[i + 1] == prefix[i + 1];
  }

  lemma StrtodHex(text: string, minus: bool, x: real, end: nat)
    requires var i := if minus then 1 else 0;
      && (At(text, 0) == '-') == minus && At(text, i) == '0' && IsX(At(text, i + 1))
      && i < |text| && HexFloat(text, i) == (x, end)
    ensures Strtod(text) == Ok(if minus then -x else x, end)
  {
    hide HexFloat, DecimalFloat, IsWord;
    var i := if minus then 1 else 0;
    NotThatWord(text, i, "inf");
    NotThatWord(text, i, "nan");
  }

  lemma HexFloatIs(text: string, i: nat, d: string, rest: string)
    requires i + 2 <= |text| && text[i + 2..] == d + rest && d != "" && AllHex(d)
    requires HexDigits(d + rest, |d + rest|) == |d|
    requires rest == "" || !(rest[0] == '.' || rest[0] == 'p' || rest[0] == 'P')
    ensures HexFloat(text, i) == (HexNumber(d) as real, i + 2 + |d|)
  {
    hide HexNumber, HexDigits;
    var a := i + 2;
    assert text[a..a + |d|] == text[a..][..|d|] == d && d + text[a + |d|..a + |d|] == d;
    assert At(text, a + |d|) == At(text[a..], |d|) == At(rest, 0);
  }

  lemma HexRunAll(d: string, rest: string)
    requires AllHex(d) && (rest == "" || !IsHex(rest[0]))
    ensures HexDigits(d + rest, |d + rest|) == |d|
  {
    HexRun(d, rest, |d + rest|);
  }

  /** A minus sign without a number behind it is none. */
  lemma LoneMinusRefused(rest: string)
    requires rest == "" || !(IsDigit(rest[0]) || rest[0] == '.' || rest[0] == 'i' || rest[0] == 'I' ||
                             rest[0] == 'n' || rest[0] == 'N')
    ensures Strtod("-" + rest) == Bad
  {
    var text := "-" + rest;
    assert At(text, 1) == At(rest, 0);
    NotThatWord(text, 1, "inf");
    NotThatWord(text, 1, "nan");
  }

  lemma NotThatWord(text: string, i: nat, word: string)
    requires word != "" && At(text, i) != word[0] && At(text, i) != Upper(word[0])
    ensures !IsWord(text, i, word)
  {
    assert At(text, i + 0) == At(text, i);
  }

  /** Hex digits count the same in either case. */
  lemma HexCase(c: char)
    requires 'a' <= c <= 'f'
    ensures IsHex(Upper(c)) && HexValue(Upper(c)) == HexValue(c) && HexDigit(HexValue(c)) == c
  {
  }
}
