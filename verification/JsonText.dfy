/** What the reader of json.c accepts and what value it gives a text, as functions of an
    immutable text. */
module JsonText {
  import opened JsonValues
  import opened Machine

  /** The outcome of reading one construct: a value and the position after it; a syntax error; a
      cursor that has left the text, on a \u escape that the end of the text cuts off; or nothing
      that the source alone decides: an infinity or a NaN, which are no numbers, and \u with 0x
      but no digits, on which C libraries differ. */
  datatype Parse<+T> = Ok(value: T, pos: nat) | Bad | Overrun | Murky
  {
    predicate Settled() { Ok? || Bad? }
  }

  const NUL: char := '\0'

  /** The character at a position of a C string; its end reads as NUL. */
  function At(text: string, p: nat): char
  {
    if p < |text| then text[p] else NUL
  }

  predicate IsWs(c: char) { c == ' ' || c == '\t' || c == '\n' || c == '\r' }
  predicate IsDigit(c: char) { '0' <= c <= '9' }

  function SkipWs(text: string, p: nat): (r: nat)
    requires p <= |text|
    ensures p <= r <= |text|
    decreases |text| - p
  {
    if p < |text| && IsWs(text[p]) then SkipWs(text, p + 1) else p
  }

  // ---- Strings ----

  predicate IsHex(c: char) { IsDigit(c) || 'a' <= c <= 'f' || 'A' <= c <= 'F' }

  function HexValue(c: char): (v: nat)
    requires IsHex(c)
    ensures v < 16
  {
    if IsDigit(c) then (c - '0') as nat
    else if 'a' <= c <= 'f' then (c - 'a') as nat + 10
    else (c - 'A') as nat + 10
  }

  function HexDigit(n: nat): char
    requires n < 16
  {
    if n < 10 then '0' + n as char else 'a' + (n - 10) as char
  }

  predicate FourHex(text: string, p: nat)
  {
    p + 4 <= |text| && IsHex(text[p]) && IsHex(text[p + 1]) && IsHex(text[p + 2]) && IsHex(text[p + 3])
  }

  function CodePoint(text: string, p: nat): (v: nat)
    requires FourHex(text, p)
  {
    4096 * HexValue(text[p]) + 256 * HexValue(text[p + 1]) + 16 * HexValue(text[p + 2]) + HexValue(text[p + 3])
  }

  /** isspace(). */
  predicate IsSpace(c: char) { IsWs(c) || c == 11 as char || c == 12 as char }

  predicate IsX(c: char) { c == 'x' || c == 'X' }

  function AfterSpace(s: string): string
  {
    if s != "" && IsSpace(s[0]) then AfterSpace(s[1..]) else s
  }

  /** How many hex digits s starts with, up to a width. */
  function HexDigits(s: string, width: nat): (n: nat)
    ensures n <= |s| && n <= width && forall i :: 0 <= i < n ==> IsHex(s[i])
  {
    if width > 0 && s != "" && IsHex(s[0]) then 1 + HexDigits(s[1..], width - 1) else 0
  }

  function HexNumber(s: string): nat
    requires forall i :: 0 <= i < |s| ==> IsHex(s[i])
  {
    if s == "" then 0 else 16 * HexNumber(s[..|s| - 1]) + HexValue(s[|s| - 1])
  }

  datatype Scan = NoMatch | Match(cp: nat) | Unspecified

  /** An unsigned int; a minus sign wraps it. */
  function Scanned(minus: bool, digits: string): Scan
    requires forall i :: 0 <= i < |digits| ==> IsHex(digits[i])
  {
    if digits == "" then NoMatch
    else if minus then Match((U32 - HexNumber(digits) % U32) % U32)
    else Match(HexNumber(digits))
  }

  /** sscanf(s, "%4x"): any white space, then at most four characters of sign, 0x and digits. */
  function Scan4x(s: string): Scan
  {
    var t := AfterSpace(s);
    var i := if At(t, 0) == '+' || At(t, 0) == '-' then 1 else 0;
    var minus := At(t, 0) == '-';
    if At(t, i) == '0' && IsX(At(t, i + 1)) then
      var n := HexDigits(t[i + 2..], 2 - i);
      if n == 0 then Unspecified else Scanned(minus, t[i + 2..i + 2 + n])
    else
      Scanned(minus, t[i..i + HexDigits(t[i..], 4 - i)])
  }

  lemma ScanFour(s: string)
    requires FourHex(s, 0)
    ensures Scan4x(s) == Match(CodePoint(s, 0))
  {
    assert !IsSpace(s[0]) && !IsX(s[1]);
    assert AfterSpace(s) == s && s[0..] == s;
    assert HexDigits(s, 4) == 4 by {
      assert s[1..][1..][1..] == s[3..];
      assert HexDigits(s[3..], 1) == 1;
      assert s[1..][1..] == s[2..] && HexDigits(s[2..], 2) == 2;
      assert HexDigits(s[1..], 3) == 3;
    }
    var d := s[..4];
    assert s[0..4] == d && d[..3][..2] == d[..2] && d[..2][..1] == d[..1] && d[..1][..0] == "";
    assert HexNumber(d[..1]) == HexValue(s[0]);
    assert HexNumber(d[..2]) == 16 * HexNumber(d[..1]) + HexValue(s[1]);
    assert HexNumber(d[..3]) == 16 * HexNumber(d[..2]) + HexValue(s[2]);
  }

  /** What is kept of a code point: ASCII only. */
  function Narrowed(cp: nat): char
  {
    if cp < 0x80 then cp as char else '?'
  }

  /** One escape: p is the position after the backslash. Whatever \u matched, four characters
      after the u are taken. */
  function Escape(text: string, p: nat): (r: Parse<char>)
    requires p <= |text|
    ensures r.Ok? ==> p < r.pos <= |text|
  {
    match At(text, p)
    case '"' => Ok('"', p + 1)
    case '\\' => Ok('\\', p + 1)
    case '/' => Ok('/', p + 1)
    case 'n' => Ok('\n', p + 1)
    case 't' => Ok('\t', p + 1)
    case 'r' => Ok('\r', p + 1)
    case 'u' =>
      (match Scan4x(text[p + 1..])
       case NoMatch => Bad
       case Unspecified => Murky
       case Match(cp) => if |text| < p + 5 then Overrun else Ok(Narrowed(cp), p + 5))
    case _ => Bad
  }

  function Prefixed(s: string, r: Parse<string>): Parse<string>
  {
    if r.Ok? then Ok(s + r.value, r.pos) else r
  }

  /** The body of a string, from the position after its opening quote: the unescaped
      characters and the position after the closing quote. */
  function Body(text: string, p: nat): (r: Parse<string>)
    requires p <= |text|
    ensures r.Ok? ==> p + |r.value| < r.pos <= |text|
    decreases |text| - p
  {
    if p == |text| then Bad
    else if text[p] == '"' then Ok("", p + 1)
    else if text[p] == '\\' then
      match Escape(text, p + 1)
      case Ok(c, q) => Prefixed([c], Body(text, q))
      case Bad => Bad
      case Overrun => Overrun
      case Murky => Murky
    else Prefixed([text[p]], Body(text, p + 1))
  }

  /** What strcmp() and its like see of a string: it ends at the first NUL. */
  function CString(s: string): string
  {
    if s == [] || s[0] == NUL then [] else [s[0]] + CString(s[1..])
  }

  // ---- Numbers ----

  function DigitsEnd(text: string, p: nat): (r: nat)
    requires p <= |text|
    ensures p <= r <= |text|
    ensures forall i :: p <= i < r ==> IsDigit(text[i])
    decreases |text| - p
  {
    if p < |text| && IsDigit(text[p]) then DigitsEnd(text, p + 1) else p
  }

  function DigitValue(c: char): nat
    requires IsDigit(c)
  {
    (c - '0') as nat
  }

  /** The value of a run of decimal digits. */
  function Digits(s: string): nat
    requires forall i :: 0 <= i < |s| ==> IsDigit(s[i])
  {
    if s == [] then 0 else 10 * Digits(s[..|s| - 1]) + DigitValue(s[|s| - 1])
  }

  /** x times ten to the power e. */
  function Tens(x: real, e: int): real
    decreases if e < 0 then -e else e
  {
    if e == 0 then x
    else if e > 0 then 10.0 * Tens(x, e - 1)
    else Tens(x, e + 1) / 10.0
  }

  /** The word at p, in either case. */
  predicate IsWord(text: string, p: nat, word: string)
  {
    forall i :: 0 <= i < |word| ==> At(text, p + i) == word[i] || At(text, p + i) == Upper(word[i])
  }

  function Upper(c: char): char
  {
    if 'a' <= c <= 'z' then c - 'a' + 'A' else c
  }

  function Twos(x: real, e: int): real
    decreases if e < 0 then -e else e
  {
    if e == 0 then x
    else if e > 0 then 2.0 * Twos(x, e - 1)
    else Twos(x, e + 1) / 2.0
  }

  /** A hexadecimal number whose 0 is at i: its value and its end. Without digits it is that 0. */
  function HexFloat(text: string, i: nat): (r: (real, nat))
    requires i < |text|
    ensures i < r.1 <= |text|
  {
    if |text| < i + 2 then (0.0, i + 1) else
    var a := i + 2;
    var j := a + HexDigits(text[a..], |text| - a);
    var f := if At(text, j) == '.' then j + 1 else j;
    var k := if f == j then j else f + HexDigits(text[f..], |text| - f);
    if (j - a) + (k - f) == 0 then (0.0, i + 1) else
      var x := Twos(HexNumber(text[a..j] + text[f..k]) as real, -4 * (k - f));
      var m := if At(text, k) == 'p' || At(text, k) == 'P' then PowerEnd(text, k) else k;
      (if m == k then x else Twos(x, PowerOf(text, k)), m)
  }

  /** strtod(): sign, digits, fraction and exponent, as far as they go. The
      position is the number of characters consumed. */
  function Strtod(text: string): (r: Parse<real>)
    ensures r.Ok? ==> 0 < r.pos <= |text|
  {
    var i := if At(text, 0) == '-' then 1 else 0;
    if IsWord(text, i, "inf") || IsWord(text, i, "nan") then Murky
    else if At(text, i) == '0' && IsX(At(text, i + 1)) then
      var (x, m) := HexFloat(text, i);
      Ok(if i == 1 then -x else x, m)
    else DecimalFloat(text, i)
  }

  /** The decimal number at i, after a minus sign if i is 1. */
  function DecimalFloat(text: string, i: nat): (r: Parse<real>)
    requires i <= |text| && i <= 1
    ensures r.Ok? ==> i < r.pos <= |text|
  {
    var j := DigitsEnd(text, i);
    var f := if At(text, j) == '.' then j + 1 else j;
    var k := if f == j then j else DigitsEnd(text, f);
    if (j - i) + (k - f) == 0 then Bad else
      var size := Digits(text[i..j]) as real + Tens(Digits(text[f..k]) as real, f - k);
      var x := if i == 1 then -size else size;
      var m := ExponentEnd(text, k);
      Ok(if m == k then x else Tens(x, PowerOf(text, k)), m)
  }

  /** Where an exponent that starts at k ends, or k if there is none. */
  function ExponentEnd(text: string, k: nat): (m: nat)
    requires k <= |text|
    ensures k <= m <= |text|
    ensures m > k ==> m == PowerEnd(text, k)
  {
    if At(text, k) == 'e' || At(text, k) == 'E' then PowerEnd(text, k) else k
  }

  /** The end of the sign and digits after the mark at k, or k if there are no digits. */
  function PowerEnd(text: string, k: nat): (m: nat)
    requires k < |text|
    ensures k <= m <= |text|
    ensures m > k ==> var d := ExponentDigits(text, k);
      k < d < m && m == DigitsEnd(text, d) && forall i :: d <= i < m ==> IsDigit(text[i])
  {
    var d := ExponentDigits(text, k);
    if |text| <= d || DigitsEnd(text, d) == d then k else DigitsEnd(text, d)
  }

  function ExponentDigits(text: string, k: nat): nat
  {
    if At(text, k + 1) == '-' || At(text, k + 1) == '+' then k + 2 else k + 1
  }

  function PowerOf(text: string, k: nat): int
    requires k < |text| && k < PowerEnd(text, k)
  {
    Signed(At(text, k + 1) == '-', Digits(text[ExponentDigits(text, k)..PowerEnd(text, k)]))
  }

  function Signed(minus: bool, n: nat): int
  {
    var i: int := n;
    if minus then -i else i
  }

  // ---- Values ----

  function Literal(text: string, p: nat): (r: Parse<Json>)
    requires p <= |text|
    ensures r.Ok? ==> p < r.pos <= |text|
  {
    if "true" <= text[p..] then Ok(Bool(true), p + 4)
    else if "false" <= text[p..] then Ok(Bool(false), p + 5)
    else if "null" <= text[p..] then Ok(Null, p + 4)
    else Bad
  }

  function Value(text: string, start: nat): (r: Parse<Json>)
    requires start <= |text|
    ensures r.Ok? ==> start < r.pos <= |text|
    decreases |text| - start, 1
  {
    ValueAt(text, SkipWs(text, start))
  }

  /** A value whose first character is at p. */
  function ValueAt(text: string, p: nat): (r: Parse<Json>)
    requires p <= |text|
    ensures r.Ok? ==> p < r.pos <= |text|
    decreases |text| - p, 0
  {
    match At(text, p)
    case '{' =>
      var q := SkipWs(text, p + 1);
      if At(text, q) == '}' then Ok(Object([]), q + 1)
      else (match Members(text, p + 1)
            case Ok(ms, end) => Ok(Object(ms), end)
            case Bad => Bad
            case Overrun => Overrun
            case Murky => Murky)
    case '[' =>
      var q := SkipWs(text, p + 1);
      if At(text, q) == ']' then Ok(Array([]), q + 1)
      else (match Items(text, p + 1)
            case Ok(vs, end) => Ok(Array(vs), end)
            case Bad => Bad
            case Overrun => Overrun
            case Murky => Murky)
    case '"' =>
      (match Body(text, p + 1)
       case Ok(s, end) => Ok(String(CString(s)), end)
       case Bad => Bad
       case Overrun => Overrun
       case Murky => Murky)
    case c =>
      if c == 't' || c == 'f' || c == 'n' then Literal(text, p)
      else if c == '-' || IsDigit(c) then
        (match Strtod(text[p..])
         case Ok(n, used) => Ok(Number(n), p + used)
         case Bad => Bad
         case Overrun => Overrun
         case Murky => Murky)
      else Bad
  }

  /** The items of an array, up to and including its closing bracket. */
  function Items(text: string, start: nat): (r: Parse<seq<Json>>)
    requires start <= |text|
    ensures r.Ok? ==> start < r.pos <= |text|
    decreases |text| - start, 2
  {
    match Value(text, start)
    case Bad => Bad
    case Overrun => Overrun
    case Murky => Murky
    case Ok(v, end) =>
      var q := SkipWs(text, end);
      if q == |text| then Bad
      else if text[q] == ',' then
        (match Items(text, q + 1)
         case Ok(vs, e) => Ok([v] + vs, e)
         case Bad => Bad
         case Overrun => Overrun
         case Murky => Murky)
      else if text[q] == ']' then Ok([v], q + 1)
      else Bad
  }

  /** The members of an object, up to and including its closing brace. */
  function Members(text: string, start: nat): (r: Parse<seq<(string, Json)>>)
    requires start <= |text|
    ensures r.Ok? ==> start < r.pos <= |text|
    decreases |text| - start, 2
  {
    match Member(text, start)
    case Bad => Bad
    case Overrun => Overrun
    case Murky => Murky
    case Ok(m, end) =>
      var q := SkipWs(text, end);
      if q == |text| then Bad
      else if text[q] == ',' then
        (match Members(text, q + 1)
         case Ok(ms, e) => Ok([m] + ms, e)
         case Bad => Bad
         case Overrun => Overrun
         case Murky => Murky)
      else if text[q] == '}' then Ok([m], q + 1)
      else Bad
  }

  function Member(text: string, start: nat): (r: Parse<(string, Json)>)
    requires start <= |text|
    ensures r.Ok? ==> start < r.pos <= |text|
    decreases |text| - start, 1
  {
    match Key(text, start)
    case Bad => Bad
    case Overrun => Overrun
    case Murky => Murky
    case Ok(key, q) =>
      match Value(text, q)
      case Bad => Bad
      case Overrun => Overrun
      case Murky => Murky
      case Ok(v, end) => Ok((key, v), end)
  }

  /** A member's key, up to and including the colon. */
  function Key(text: string, start: nat): (r: Parse<string>)
    requires start <= |text|
    ensures r.Ok? ==> start < r.pos <= |text|
  {
    var p := SkipWs(text, start);
    if p == |text| || text[p] != '"' then Bad else
      match Body(text, p + 1)
      case Bad => Bad
      case Overrun => Overrun
      case Murky => Murky
      case Ok(key, end) =>
        var q := SkipWs(text, end);
        if q == |text| || text[q] != ':' then Bad else Ok(CString(key), q + 1)
  }

  /** json_parse(): one value and nothing after it but white space. */
  function Document(text: string): Parse<Json>
  {
    match Value(text, 0)
    case Bad => Bad
    case Overrun => Overrun
    case Murky => Murky
    case Ok(v, end) => if SkipWs(text, end) == |text| then Ok(v, |text|) else Bad
  }

  // ---- White space before an item does not matter ----

  lemma {:induction false} SkipTwice(text: string, p: nat)
    requires p <= |text|
    ensures SkipWs(text, SkipWs(text, p)) == SkipWs(text, p)
    decreases |text| - p
  {
    if p < |text| && IsWs(text[p]) {
      SkipTwice(text, p + 1);
    }
  }

  lemma ValueSkip(text: string, p: nat)
    requires p <= |text|
    ensures Value(text, SkipWs(text, p)) == Value(text, p)
  {
    hide ValueAt;
    SkipTwice(text, p);
  }

  lemma ItemsSkip(text: string, p: nat)
    requires p <= |text|
    ensures Items(text, SkipWs(text, p)) == Items(text, p)
  {
    hide SkipWs, Value;
    ValueSkip(text, p);
  }

  lemma KeySkip(text: string, p: nat)
    requires p <= |text|
    ensures Key(text, SkipWs(text, p)) == Key(text, p)
  {
    hide Body, CString;
    SkipTwice(text, p);
  }

  lemma MemberSkip(text: string, p: nat)
    requires p <= |text|
    ensures Member(text, SkipWs(text, p)) == Member(text, p)
  {
    hide SkipWs, Value, Key;
    KeySkip(text, p);
  }

  lemma MembersSkip(text: string, p: nat)
    requires p <= |text|
    ensures Members(text, SkipWs(text, p)) == Members(text, p)
  {
    hide SkipWs, Member;
    MemberSkip(text, p);
  }
}
