/** json_parse() reads back what RFC 8259 lets one print. */
module JsonPrint {
  import opened JsonValues
  import opened JsonText
  import G = JsonGrammar

  /** The text holds s at position p. */
  predicate Holds(text: string, p: nat, s: string)
  {
    p + |s| <= |text| && forall i :: 0 <= i < |s| ==> s[i] == text[p + i]
  }

  lemma HoldsBoth(text: string, p: nat, a: string, b: string)
    requires Holds(text, p, a + b)
    ensures Holds(text, p, a) && Holds(text, p + |a|, b)
  {
    forall i | 0 <= i < |a| ensures a[i] == text[p + i] {
      assert (a + b)[i] == a[i];
    }
    forall i | 0 <= i < |b| ensures b[i] == text[p + |a| + i] {
      assert (a + b)[|a| + i] == b[i];
    }
  }

  lemma HoldsFirst(text: string, p: nat, s: string)
    requires Holds(text, p, s) && s != ""
    ensures p < |text| && text[p] == s[0] && At(text, p) == s[0]
  {
    assert s[0] == text[p + 0];
  }

  lemma HoldsSlice(text: string, p: nat, s: string)
    requires Holds(text, p, s)
    ensures text[p..p + |s|] == s
  {
  }

  lemma {:induction false} SkipsWhite(text: string, p: nat, ws: G.White)
    requires Holds(text, p, ws) && !IsWs(At(text, p + |ws|))
    ensures SkipWs(text, p) == p + |ws|
    decreases |ws|
  {
    if ws != "" {
      HoldsFirst(text, p, ws);
      assert ws == ws[..1] + ws[1..];
      HoldsBoth(text, p, ws[..1], ws[1..]);
      SkipsWhite(text, p + 1, ws[1..]);
    }
  }

  // ---- Strings ----

  function ReadPiece(x: G.Piece): char
    requires G.PieceOk(x)
  {
    var u := G.Unit(x);
    if x.Raw? then x.c else if u < 0x80 then u as char else '?'
  }

  function ReadPieces(s: seq<G.Piece>): (r: string)
    requires G.PiecesOk(s)
    ensures |r| == |s| && forall i :: 0 <= i < |s| ==> r[i] == ReadPiece(s[i])
  {
    if s == [] then "" else [ReadPiece(s[0])] + ReadPieces(s[1..])
  }

  /** A backslash in a string body, given what its escape reads as. */
  lemma EscapeStep(text: string, p: nat, e: Parse<char>)
    requires p < |text| && text[p] == '\\' && Escape(text, p + 1) == e && e.Settled()
    ensures Body(text, p) == if e.Ok? then Prefixed([e.value], Body(text, e.pos)) else Bad
  {
    hide Escape, Prefixed;
  }

  lemma ShortReads(text: string, p: nat, c: char)
    requires G.PieceOk(G.Short(c)) && p < |text| && text[p] == c
    ensures Escape(text, p) == if G.Known(G.Short(c)) then Ok(ReadPiece(G.Short(c)), p + 1) else Bad
  {
    hide Scan4x;
  }

  lemma HexReads(text: string, p: nat, d: string)
    requires G.PieceOk(G.Hex4(d)) && p < |text| && text[p] == 'u' && Holds(text, p + 1, d)
    ensures Escape(text, p) == Ok(ReadPiece(G.Hex4(d)), p + 5)
  {
    hide Scan4x;
    var rest := text[p + 1..];
    HoldsSlice(text, p + 1, d);
    assert rest[..4] == d;
    assert rest[0] == d[0] && rest[1] == d[1] && rest[2] == d[2] && rest[3] == d[3];
    ScanFour(rest);
  }

  /** One character of a string body: an escape the reader does not know is an error. */
  lemma BodyStep(text: string, p: nat, x: G.Piece)
    requires G.PieceOk(x) && Holds(text, p, G.PrintPiece(x))
    ensures var q := p + |G.PrintPiece(x)|;
      Body(text, p) == if G.Known(x) then Prefixed([ReadPiece(x)], Body(text, q)) else Bad
  {
    hide Escape, Prefixed;
    HoldsFirst(text, p, G.PrintPiece(x));
    match x
    case Raw(c) =>
    case Short(c) =>
      assert ['\\', c][1] == text[p + 1];
      ShortReads(text, p + 1, c);
      EscapeStep(text, p, Escape(text, p + 1));
    case Hex4(d) =>
      HoldsBoth(text, p, "\\u", d);
      assert "\\u"[1] == text[p + 1];
      HexReads(text, p + 1, d);
      EscapeStep(text, p, Escape(text, p + 1));
  }

  lemma KnownStep(s: seq<G.Piece>)
    requires s != []
    ensures G.AllKnown(s) <==> G.Known(s[0]) && G.AllKnown(s[1..])
  {
  }

  lemma Assoc(a: string, b: string, c: string)
    ensures (a + b) + c == a + (b + c)
  {
  }

  lemma BodyEnds(text: string, p: nat)
    requires Holds(text, p, "\"")
    ensures Body(text, p) == Ok("", p + 1)
  {
    HoldsFirst(text, p, "\"");
  }

  lemma SpellStep(s: seq<G.Piece>)
    requires s != [] && G.PiecesOk(s)
    ensures G.PieceOk(s[0]) && G.PiecesOk(s[1..])
    ensures G.Spell(s) + "\"" == G.PrintPiece(s[0]) + (G.Spell(s[1..]) + "\"")
    ensures |G.Spell(s)| == |G.PrintPiece(s[0])| + |G.Spell(s[1..])|
    ensures ReadPieces(s) == [ReadPiece(s[0])] + ReadPieces(s[1..])
    ensures G.AllKnown(s) <==> G.Known(s[0]) && G.AllKnown(s[1..])
  {
    hide G.PieceOk, G.PrintPiece, ReadPiece, G.Known;
    Assoc(G.PrintPiece(s[0]), G.Spell(s[1..]), "\"");
    KnownStep(s);
  }

  lemma {:induction false} BodyReads(text: string, p: nat, s: seq<G.Piece>)
    requires G.PiecesOk(s) && Holds(text, p, G.Spell(s) + "\"")
    ensures Body(text, p) == if G.AllKnown(s) then Ok(ReadPieces(s), p + |G.Spell(s)| + 1) else Bad
    decreases |s|
  {
    hide Body, Holds, G.PieceOk, G.PrintPiece, ReadPiece, G.Known;
    if s == [] {
      assert G.Spell(s) + "\"" == "\"";
      BodyEnds(text, p);
    } else {
      hide G.Spell, G.AllKnown, ReadPieces, G.PiecesOk;
      var a := G.PrintPiece(s[0]);
      SpellStep(s);
      HoldsBoth(text, p, a, G.Spell(s[1..]) + "\"");
      BodyStep(text, p, s[0]);
      BodyReads(text, p + |a|, s[1..]);
    }
  }

  // ---- Numbers ----

  lemma {:induction false} DigitsRun(text: string, p: nat, s: G.DigitRun)
    requires Holds(text, p, s) && !IsDigit(At(text, p + |s|))
    ensures DigitsEnd(text, p) == p + |s|
    decreases |s|
  {
    if s != "" {
      HoldsFirst(text, p, s);
      assert s == s[..1] + s[1..];
      HoldsBoth(text, p, s[..1], s[1..]);
      DigitsRun(text, p + 1, s[1..]);
    }
  }

  lemma {:induction false} TensAdd(x: real, y: real, e: int)
    ensures Tens(x + y, e) == Tens(x, e) + Tens(y, e)
    ensures Tens(-x, e) == -Tens(x, e)
    decreases if e < 0 then -e else e
  {
    if e != 0 {
      TensAdd(x, y, if e < 0 then e + 1 else e - 1);
    }
  }

  lemma {:induction false} TensTwice(x: real, a: int, b: int)
    ensures Tens(Tens(x, a), b) == Tens(x, a + b)
    decreases if b < 0 then -b else b
  {
    if b > 0 {
      TensTwice(x, a, b - 1);
      TensStep(x, a + b - 1);
    } else if b < 0 {
      TensTwice(x, a, b + 1);
      TensStep(x, a + b);
    }
  }

  lemma TensStep(x: real, e: int)
    ensures Tens(x, e + 1) == 10.0 * Tens(x, e)
  {
  }

  /** Appending digits shifts those before them. */
  lemma {:induction false} DigitsJoin(a: G.DigitRun, b: G.DigitRun)
    ensures Digits(a + b) as real == Tens(Digits(a) as real, |b|) + Digits(b) as real
    decreases |b|
  {
    if b == "" {
      assert a + b == a;
    } else {
      var b' := b[..|b| - 1];
      assert (a + b)[..|a + b| - 1] == a + b';
      DigitsJoin(a, b');
    }
  }

  function Size(n: G.Numeral): real
  {
    Digits(n.whole) as real + Tens(Digits(n.fraction) as real, -|n.fraction|)
  }

  /** strtod() adds up whole part and fraction, and only then applies the exponent: the value is
      the same. */
  lemma StrtodIsExact(n: G.Numeral)
    ensures Tens(if n.minus then -Size(n) else Size(n), G.PowerValue(n.exponent)) == G.NumeralValue(n)
  {
    var k, e := |n.fraction|, G.PowerValue(n.exponent);
    var w, f := Digits(n.whole) as real, Digits(n.fraction) as real;
    DigitsJoin(n.whole, n.fraction);
    TensTwice(w, k, -k);
    TensAdd(Tens(w, k), f, -k);
    TensTwice(Digits(n.whole + n.fraction) as real, -k, e);
    TensAdd(Size(n), 0.0, e);
  }

  /** What may follow a number so that it ends there. */
  predicate EndsNumber(c: char)
  {
    !IsDigit(c) && c != '.' && c != 'e' && c != 'E' && c != 'x' && c != 'X'
  }

  lemma SignReads(text: string, k: nat, e: G.Power)
    requires e.Power? && e.digits != ""
    requires Holds(text, k + 1, G.PrintSign(e.sign)) && Holds(text, k + 1 + |G.PrintSign(e.sign)|, e.digits)
    ensures ExponentDigits(text, k) == k + 1 + |G.PrintSign(e.sign)|
    ensures (At(text, k + 1) == '-') == e.sign.Minus?
  {
    HoldsFirst(text, k + 1 + |G.PrintSign(e.sign)|, e.digits);
    if !e.sign.Unsigned? {
      HoldsFirst(text, k + 1, G.PrintSign(e.sign));
    }
  }

  lemma ExponentReads(text: string, k: nat, e: G.Power)
    requires Holds(text, k, G.PrintPower(e)) && EndsNumber(At(text, k + |G.PrintPower(e)|))
    requires e.Power? ==> e.digits != ""
    ensures ExponentEnd(text, k) == k + |G.PrintPower(e)|
    ensures e.Power? ==> PowerOf(text, k) == G.PowerValue(e)
  {
    hide Digits, DigitsEnd;
    if e.Power? {
      var d := k + 1 + |G.PrintSign(e.sign)|;
      HoldsBoth(text, k, [G.Mark(e)], G.PrintSign(e.sign) + e.digits);
      HoldsFirst(text, k, [G.Mark(e)]);
      HoldsBoth(text, k + 1, G.PrintSign(e.sign), e.digits);
      SignReads(text, k, e);
      DigitsRun(text, d, e.digits);
      HoldsSlice(text, d, e.digits);
    }
  }

  lemma HoldsFour(text: string, p: nat, a: string, b: string, c: string, d: string)
    requires Holds(text, p, a + (b + (c + d)))
    ensures Holds(text, p, a) && Holds(text, p + |a|, b)
    ensures Holds(text, p + |a| + |b|, c) && Holds(text, p + |a| + |b| + |c|, d)
  {
    HoldsBoth(text, p, a, b + (c + d));
    HoldsBoth(text, p + |a|, b, c + d);
    HoldsBoth(text, p + |a| + |b|, c, d);
  }

  /** A number of the RFC, or one with leading zeros, which strtod() takes as well. */
  predicate Countable(n: G.Numeral)
  {
    n.whole != "" && (n.exponent.Power? ==> n.exponent.digits != "")
  }

  lemma NumeralParts(text: string, n: G.Numeral)
    requires Countable(n) && Holds(text, 0, G.PrintNumeral(n))
    ensures var i := if n.minus then 1 else 0;
            var j := i + |n.whole|;
            var k := j + |G.PrintFraction(n.fraction)|;
      && (At(text, 0) == '-') == n.minus
      && Holds(text, i, n.whole) && IsDigit(At(text, i))
      && Holds(text, j, G.PrintFraction(n.fraction)) && Holds(text, k, G.PrintPower(n.exponent))
      && |G.PrintNumeral(n)| == k + |G.PrintPower(n.exponent)|
  {
    hide G.PrintPower, G.PrintFraction, Holds;
    var sign := if n.minus then "-" else "";
    HoldsFour(text, 0, sign, n.whole, G.PrintFraction(n.fraction), G.PrintPower(n.exponent));
    HoldsFirst(text, |sign|, n.whole);
    if n.minus {
      HoldsFirst(text, 0, sign);
    }
  }

  lemma PartStarts(text: string, p: nat, s: string)
    requires Holds(text, p, s) && EndsNumber(At(text, p + |s|))
    ensures At(text, p) == if s == "" then At(text, p + |s|) else s[0]
  {
    if s != "" {
      HoldsFirst(text, p, s);
    }
  }

  lemma WholeReads(text: string, i: nat, j: nat, k: nat, n: G.Numeral)
    requires Countable(n) && j == i + |n.whole| && k == j + |G.PrintFraction(n.fraction)|
    requires Holds(text, i, n.whole) && Holds(text, j, G.PrintFraction(n.fraction))
    requires Holds(text, k, G.PrintPower(n.exponent)) && EndsNumber(At(text, k + |G.PrintPower(n.exponent)|))
    ensures DigitsEnd(text, i) == j && !IsX(At(text, i + 1))
    ensures (At(text, j) == '.') == (n.fraction != "")
    ensures n.fraction != "" ==> DigitsEnd(text, j + 1) == k && text[j + 1..k] == n.fraction
  {
    PartStarts(text, k, G.PrintPower(n.exponent));
    FractionReads(text, i, j, k, n);
    NotHex(text, i, n.whole);
  }

  lemma CountableMeans(n: G.Numeral)
    requires Countable(n)
    ensures n.whole != "" && (n.exponent.Power? ==> n.exponent.digits != "" && |G.PrintPower(n.exponent)| > 0)
    ensures n.exponent.Absent? ==> |G.PrintPower(n.exponent)| == 0
  {
  }

  /** Every number of the RFC, and every one with leading zeros, is taken whole and exactly. */
  lemma NumberReads(text: string, n: G.Numeral)
    requires Countable(n) && Holds(text, 0, G.PrintNumeral(n))
    requires EndsNumber(At(text, |G.PrintNumeral(n)|))
    ensures Strtod(text) == Ok(G.NumeralValue(n), |G.PrintNumeral(n)|)
  {
    hide *;
    CountableMeans(n);
    var i := if n.minus then 1 else 0;
    var j := i + |n.whole|;
    var k := j + |G.PrintFraction(n.fraction)|;
    NumeralParts(text, n);
    WholeReads(text, i, j, k, n);
    ExponentReads(text, k, n.exponent);
    StrtodParts(text, n, i, j, k);
  }

  /** A number with several digits does not start with 0, so 0x is never met. */
  lemma NotHex(text: string, i: nat, whole: G.DigitRun)
    requires whole != "" && Holds(text, i, whole) && !IsX(At(text, i + |whole|))
    ensures !IsX(At(text, i + 1))
  {
    if |whole| > 1 {
      assert whole[1] == text[i + 1];
    }
  }

  lemma NotWord(text: string, i: nat, word: string)
    requires IsDigit(At(text, i)) && word != "" && 'a' <= word[0] <= 'z'
    ensures !IsWord(text, i, word)
  {
    assert At(text, i + 0) == At(text, i);
  }

  /** strtod() on a text whose parts are known. */
  lemma StrtodParts(text: string, n: G.Numeral, i: nat, j: nat, k: nat)
    requires i == (if At(text, 0) == '-' then 1 else 0) && n.minus == (i == 1)
    requires n.whole != "" && j == i + |n.whole| && Holds(text, i, n.whole)
    requires IsDigit(At(text, i)) && !IsX(At(text, i + 1)) && DigitsEnd(text, i) == j
    requires k == j + |G.PrintFraction(n.fraction)| <= |text|
    requires (At(text, j) == '.') == (n.fraction != "")
    requires n.fraction != "" ==> DigitsEnd(text, j + 1) == k && text[j + 1..k] == n.fraction
    requires n.exponent.Power? <==> ExponentEnd(text, k) != k
    requires n.exponent.Power? ==> PowerOf(text, k) == G.PowerValue(n.exponent)
    ensures Strtod(text) == Ok(G.NumeralValue(n), ExponentEnd(text, k))
  {
    hide DecimalFloat, HexFloat, IsWord, Holds, DigitsEnd, ExponentEnd, PowerOf, G.NumeralValue, G.PowerValue;
    DecimalParts(text, n, i, j, k);
    NotWord(text, i, "inf");
    NotWord(text, i, "nan");
  }

  lemma DecimalParts(text: string, n: G.Numeral, i: nat, j: nat, k: nat)
    requires i <= 1 && n.minus == (i == 1)
    requires n.whole != "" && j == i + |n.whole| && Holds(text, i, n.whole) && DigitsEnd(text, i) == j
    requires k == j + |G.PrintFraction(n.fraction)| <= |text|
    requires (At(text, j) == '.') == (n.fraction != "")
    requires n.fraction != "" ==> DigitsEnd(text, j + 1) == k && text[j + 1..k] == n.fraction
    requires n.exponent.Power? <==> ExponentEnd(text, k) != k
    requires n.exponent.Power? ==> PowerOf(text, k) == G.PowerValue(n.exponent)
    ensures DecimalFloat(text, i) == Ok(G.NumeralValue(n), ExponentEnd(text, k))
  {
    hide Digits, DigitsEnd, ExponentEnd, PowerOf, G.NumeralValue, G.PowerValue, G.PrintFraction, Holds, Tens, Size;
    var f := if At(text, j) == '.' then j + 1 else j;
    FractionPlace(text, n, i, j, f, k);
    StrtodIsExact(n);
    NoPower(if n.minus then -Size(n) else Size(n), n.exponent);
  }

  lemma FractionPlace(text: string, n: G.Numeral, i: nat, j: nat, f: nat, k: nat)
    requires n.whole != "" && j == i + |n.whole| && Holds(text, i, n.whole)
    requires k == j + |G.PrintFraction(n.fraction)| <= |text|
    requires f == if n.fraction != "" then j + 1 else j
    requires n.fraction != "" ==> text[j + 1..k] == n.fraction
    ensures i < j <= f <= k <= |text| && text[i..j] == n.whole && text[f..k] == n.fraction
    ensures f == j ==> k == j
    ensures Digits(text[i..j]) as real + Tens(Digits(text[f..k]) as real, f - k) == Size(n)
  {
    hide Digits, Tens;
    HoldsSlice(text, i, n.whole);
    assert text[j..j] == "";
  }

  lemma NoPower(x: real, e: G.Power)
    ensures e.Absent? ==> Tens(x, G.PowerValue(e)) == x
  {
  }

  lemma FractionReads(text: string, i: nat, j: nat, k: nat, n: G.Numeral)
    requires j == i + |n.whole| && k == j + |G.PrintFraction(n.fraction)|
    requires Holds(text, i, n.whole) && Holds(text, j, G.PrintFraction(n.fraction))
    requires !IsDigit(At(text, k)) && At(text, k) != '.'
    ensures DigitsEnd(text, i) == j
    ensures (At(text, j) == '.') == (n.fraction != "")
    ensures n.fraction != "" ==> DigitsEnd(text, j + 1) == k && text[j + 1..k] == n.fraction
  {
    if n.fraction != "" {
      HoldsFirst(text, j, G.PrintFraction(n.fraction));
    }
    DigitsRun(text, i, n.whole);
    if n.fraction != "" {
      HoldsBoth(text, j, ".", n.fraction);
      HoldsSlice(text, j + 1, n.fraction);
      DigitsRun(text, j + 1, n.fraction);
    }
  }

  // ---- Values ----

  /** What this reader makes of a text. */
  function ReadBack(v: G.Text): Json
    requires G.Ok(v)
  {
    match v
    case TNull => Null
    case TBool(b) => Bool(b)
    case TNumber(n) => Number(G.NumeralValue(n))
    case TString(s) => String(CString(ReadPieces(s)))
    case TEmptyArray(_) => Array([])
    case TArray(items) => Array(ItemsBack(items))
    case TEmptyObject(_) => Object([])
    case TObject(members) => Object(MembersBack(members))
  }

  function ItemsBack(x: G.Items): seq<Json>
    requires G.ItemsOk(x)
  {
    [ReadBack(x.v)] + if x.next.NoItems? then [] else ItemsBack(x.next.items)
  }

  function MembersBack(x: G.Members): seq<(string, Json)>
    requires G.MembersOk(x)
  {
    [(CString(ReadPieces(x.key)), ReadBack(x.v))] + if x.next.NoMembers? then [] else MembersBack(x.next.members)
  }

  predicate IsCloser(c: char) { c == ',' || c == ']' || c == '}' }
  predicate EndsValue(c: char) { IsWs(c) || IsCloser(c) || c == NUL }

  lemma PrintStarts(v: G.Text)
    requires G.Ok(v)
    ensures G.Print(v) != "" && !IsWs(G.Print(v)[0]) && G.Print(v)[0] != ']'
    ensures v.TNumber? ==> G.Print(v)[0] == '-' || IsDigit(G.Print(v)[0])
  {
    if v.TNumber? {
      assert v.n.whole[0] == (v.n.whole + (G.PrintFraction(v.n.fraction) + G.PrintPower(v.n.exponent)))[0];
    }
  }

  lemma LiteralReads(text: string, p: nat, v: G.Text)
    requires (v.TNull? || v.TBool?) && Holds(text, p, G.Print(v))
    ensures ValueAt(text, p) == Outcome(G.Supported(v), ReadBack(v), p + |G.Print(v)|)
  {
    HoldsFirst(text, p, G.Print(v));
    HoldsSlice(text, p, G.Print(v));
    assert text[p..][..|G.Print(v)|] == text[p..p + |G.Print(v)|];
    assert text[p..][0] == text[p];
  }

  lemma HoldsFrom(text: string, p: nat, s: string)
    requires Holds(text, p, s)
    ensures Holds(text[p..], 0, s) && At(text[p..], |s|) == At(text, p + |s|)
  {
    forall i | 0 <= i < |s| ensures s[i] == text[p..][0 + i] {
      assert s[i] == text[p + i];
    }
  }

  lemma OutcomeKnown<T>(v: T, end: nat)
    ensures Outcome(true, v, end) == Ok(v, end)
  {
  }

  lemma NumberTurn(text: string, p: nat, r: Parse<real>)
    requires p < |text| && (text[p] == '-' || IsDigit(text[p])) && Strtod(text[p..]) == r && r.Ok?
    ensures ValueAt(text, p) == Ok(Number(r.value), p + r.pos)
  {
    hide Strtod, Literal, Body, Items, Members;
  }

  lemma NumeralShape(v: G.Text)
    requires v.TNumber? && G.Ok(v)
    ensures G.NumeralOk(v.n) && G.Print(v) == G.PrintNumeral(v.n) && G.Supported(v)
    ensures ReadBack(v) == Number(G.NumeralValue(v.n)) && Countable(v.n)
  {
  }

  lemma NumeralReads(text: string, p: nat, v: G.Text)
    requires v.TNumber? && G.Ok(v) && Holds(text, p, G.Print(v)) && EndsNumber(At(text, p + |G.Print(v)|))
    ensures ValueAt(text, p) == Outcome(G.Supported(v), ReadBack(v), p + |G.Print(v)|)
  {
    hide *;
    NumeralShape(v);
    PrintStarts(v);
    HoldsFirst(text, p, G.Print(v));
    HoldsFrom(text, p, G.PrintNumeral(v.n));
    NumberReads(text[p..], v.n);
    NumberTurn(text, p, Strtod(text[p..]));
    OutcomeKnown(ReadBack(v), p + |G.Print(v)|);
  }

  function Outcome<T>(supported: bool, v: T, end: nat): Parse<T>
  {
    if supported then Ok(v, end) else Bad
  }

  lemma QuotedReads(text: string, p: nat, s: seq<G.Piece>)
    requires G.PiecesOk(s) && Holds(text, p, G.Quoted(s))
    ensures p < |text| && text[p] == '"'
    ensures Body(text, p + 1) == Outcome(G.AllKnown(s), ReadPieces(s), p + |G.Quoted(s)|)
  {
    HoldsFirst(text, p, G.Quoted(s));
    HoldsBoth(text, p, "\"", G.Spell(s) + "\"");
    BodyReads(text, p + 1, s);
  }

  lemma StringReads(text: string, p: nat, v: G.Text)
    requires v.TString? && G.Ok(v) && Holds(text, p, G.Print(v))
    ensures ValueAt(text, p) == Outcome(G.Supported(v), ReadBack(v), p + |G.Print(v)|)
  {
    hide Items, Members, Strtod, Literal;
    QuotedReads(text, p, v.s);
  }

  lemma EmptyParts(text: string, p: nat, open: string, ws: G.White, close: string)
    requires |open| == |close| == 1 && Holds(text, p, open + (ws + close)) && !IsWs(close[0])
    ensures p < |text| && text[p] == open[0] && SkipWs(text, p + 1) == p + 1 + |ws|
    ensures At(text, p + 1 + |ws|) == close[0]
  {
    HoldsBoth(text, p, open, ws + close);
    HoldsBoth(text, p + 1, ws, close);
    HoldsFirst(text, p, open);
    HoldsFirst(text, p + 1 + |ws|, close);
    SkipsWhite(text, p + 1, ws);
  }

  lemma EmptyReads(text: string, p: nat, v: G.Text)
    requires (v.TEmptyArray? || v.TEmptyObject?) && Holds(text, p, G.Print(v))
    ensures ValueAt(text, p) == Outcome(G.Supported(v), ReadBack(v), p + |G.Print(v)|)
  {
    hide Items, Members, Strtod, Literal, Body;
    if v.TEmptyArray? {
      EmptyParts(text, p, "[", v.ws, "]");
    } else {
      EmptyParts(text, p, "{", v.ws, "}");
    }
  }

  lemma ArrayOpens(text: string, p: nat, v: G.Text)
    requires v.TArray? && G.Ok(v) && Holds(text, p, G.Print(v))
    ensures p < |text| && text[p] == '[' && G.ItemsOk(v.items) && Holds(text, p + 1, G.PrintItems(v.items))
    ensures |G.Print(v)| == 1 + |G.PrintItems(v.items)|
  {
    HoldsBoth(text, p, "[", G.PrintItems(v.items));
    HoldsFirst(text, p, "[");
  }

  lemma ArrayTurn(text: string, p: nat, v: G.Text)
    requires v.TArray? && G.Ok(v) && p < |text| && text[p] == '[' && At(text, SkipWs(text, p + 1)) != ']'
    requires var r := Items(text, p + 1);
      r == Outcome(G.ItemsSupported(v.items), ItemsBack(v.items), p + |G.Print(v)|)
    ensures ValueAt(text, p) == Outcome(G.Supported(v), ReadBack(v), p + |G.Print(v)|)
  {
    hide Items, Members, Strtod, Literal, Body, SkipWs, G.Print;
  }

  lemma ObjectOpens(text: string, p: nat, v: G.Text)
    requires v.TObject? && G.Ok(v) && Holds(text, p, G.Print(v))
    ensures p < |text| && text[p] == '{' && G.MembersOk(v.members) && Holds(text, p + 1, G.PrintMembers(v.members))
    ensures |G.Print(v)| == 1 + |G.PrintMembers(v.members)|
  {
    HoldsBoth(text, p, "{", G.PrintMembers(v.members));
    HoldsFirst(text, p, "{");
  }

  lemma ObjectTurn(text: string, p: nat, v: G.Text)
    requires v.TObject? && G.Ok(v) && p < |text| && text[p] == '{' && At(text, SkipWs(text, p + 1)) != '}'
    requires var r := Members(text, p + 1);
      r == Outcome(G.MembersSupported(v.members), MembersBack(v.members), p + |G.Print(v)|)
    ensures ValueAt(text, p) == Outcome(G.Supported(v), ReadBack(v), p + |G.Print(v)|)
  {
    hide Items, Members, Strtod, Literal, Body, SkipWs, G.Print;
  }

  lemma ValueEndsNumber(c: char)
    requires EndsValue(c)
    ensures EndsNumber(c)
  {
  }

  /** Every text the RFC allows is read as one value, to its last character, or refused for
      holding \b or \f, whatever follows it, unless it is a number that goes on. */
  lemma {:induction false} ValueReads(text: string, p: nat, v: G.Text)
    requires G.Ok(v) && Holds(text, p, G.Print(v)) && (v.TNumber? ==> EndsNumber(At(text, p + |G.Print(v)|)))
    ensures ValueAt(text, p) == Outcome(G.Supported(v), ReadBack(v), p + |G.Print(v)|)
    decreases v, 0
  {
    hide *;
    match v
    case TNull => LiteralReads(text, p, v);
    case TBool(_) => LiteralReads(text, p, v);
    case TNumber(_) => NumeralReads(text, p, v);
    case TString(_) => StringReads(text, p, v);
    case TEmptyArray(_) => EmptyReads(text, p, v);
    case TEmptyObject(_) => EmptyReads(text, p, v);
    case TArray(items) =>
      ArrayOpens(text, p, v);
      ItemsRead(text, p + 1, items);
      ArrayTurn(text, p, v);
    case TObject(members) =>
      ObjectOpens(text, p, v);
      MembersRead(text, p + 1, members);
      ObjectTurn(text, p, v);
  }

  /** White space ends where something else begins. */
  lemma WhiteThen(text: string, p: nat, ws: G.White, s: string)
    requires Holds(text, p, ws) && Holds(text, p + |ws|, s) && s != "" && !IsWs(s[0])
    ensures SkipWs(text, p) == p + |ws| < |text| && text[p + |ws|] == s[0]
  {
    HoldsFirst(text, p + |ws|, s);
    SkipsWhite(text, p, ws);
  }

  lemma WhiteEndsValue(text: string, p: nat, ws: G.White, c: char)
    requires Holds(text, p, ws) && At(text, p + |ws|) == c && EndsValue(c)
    ensures EndsValue(At(text, p))
  {
    if ws != "" {
      HoldsFirst(text, p, ws);
    }
  }

  /** White space, a value, white space, and something that ends it. */
  lemma PaddedReads(text: string, p: nat, before: G.White, v: G.Text, after: G.White, rest: string)
    requires G.Ok(v) && Holds(text, p, before + (G.Print(v) + (after + rest)))
    requires rest != "" && IsCloser(rest[0])
    ensures var at := p + |before|;
      var end := at + |G.Print(v)|;
      && SkipWs(text, p) == at && At(text, at) != ']'
      && Holds(text, at, G.Print(v)) && EndsValue(At(text, end))
      && SkipWs(text, end) == end + |after| < |text| && text[end + |after|] == rest[0]
      && Holds(text, end + |after|, rest)
  {
    var at := p + |before|;
    var end := at + |G.Print(v)|;
    HoldsFour(text, p, before, G.Print(v), after, rest);
    PrintStarts(v);
    WhiteThen(text, p, before, G.Print(v));
    WhiteThen(text, end, after, rest);
    WhiteEndsValue(text, end, after, rest[0]);
  }

  /** One turn of Items, given what the rest of the items become. */
  lemma ItemsTurn(text: string, p: nat, x: G.Items, end: nat, q: nat, last: nat)
    requires G.ItemsOk(x) && p <= |text| && end <= |text| && q < |text|
    requires Value(text, p) == Outcome(G.Supported(x.v), ReadBack(x.v), end) && SkipWs(text, end) == q
    requires if x.next.NoItems? then text[q] == ']' && last == q + 1 else
      text[q] == ',' &&
      Items(text, q + 1) == Outcome(G.ItemsSupported(x.next.items), ItemsBack(x.next.items), last)
    ensures Items(text, p) == Outcome(G.ItemsSupported(x), ItemsBack(x), last)
  {
    hide Value, SkipWs, ReadBack, G.Supported;
    assert [ReadBack(x.v)] + [] == [ReadBack(x.v)];
  }

  lemma MembersTurn(text: string, p: nat, x: G.Members, mid: nat, end: nat, q: nat, last: nat)
    requires G.MembersOk(x) && p <= |text| && mid <= |text| && end <= |text| && q < |text|
    requires Key(text, p) == Outcome(G.AllKnown(x.key), CString(ReadPieces(x.key)), mid)
    requires Value(text, mid) == Outcome(G.Supported(x.v), ReadBack(x.v), end) && SkipWs(text, end) == q
    requires if x.next.NoMembers? then text[q] == '}' && last == q + 1 else
      text[q] == ',' &&
      Members(text, q + 1) == Outcome(G.MembersSupported(x.next.members), MembersBack(x.next.members), last)
    ensures Members(text, p) == Outcome(G.MembersSupported(x), MembersBack(x), last)
  {
    hide Key, Value, SkipWs, ReadBack, G.Supported, CString, ReadPieces, G.AllKnown;
    var m := (CString(ReadPieces(x.key)), ReadBack(x.v));
    assert [m] + [] == [m];
    assert Member(text, p) == Outcome(G.AllKnown(x.key) && G.Supported(x.v), m, end);
  }

  function ItemsTail(x: G.Items): string
  {
    if x.next.NoItems? then "]" else "," + G.PrintItems(x.next.items)
  }

  lemma PaddedValue(text: string, p: nat, before: G.White, v: G.Text, after: G.White, rest: string)
    requires G.Ok(v) && Holds(text, p, before + (G.Print(v) + (after + rest)))
    requires rest != "" && IsCloser(rest[0])
    ensures var end := p + |before| + |G.Print(v)|;
      && Value(text, p) == Outcome(G.Supported(v), ReadBack(v), end) && At(text, SkipWs(text, p)) != ']'
      && SkipWs(text, end) == end + |after| < |text| && text[end + |after|] == rest[0]
      && Holds(text, end + |after|, rest)
    decreases v, 1
  {
    hide *;
    PaddedReads(text, p, before, v, after, rest);
    ValueEndsNumber(At(text, p + |before| + |G.Print(v)|));
    ValueReads(text, p + |before|, v);
    ValueSkips(text, p);
  }

  lemma ValueSkips(text: string, p: nat)
    requires p <= |text|
    ensures Value(text, p) == ValueAt(text, SkipWs(text, p))
  {
    hide ValueAt, SkipWs;
  }

  lemma {:induction false} ItemsRead(text: string, p: nat, x: G.Items)
    requires G.ItemsOk(x) && Holds(text, p, G.PrintItems(x))
    ensures Items(text, p) == Outcome(G.ItemsSupported(x), ItemsBack(x), p + |G.PrintItems(x)|)
    ensures At(text, SkipWs(text, p)) != ']'
    decreases x
  {
    hide *;
    ItemsShape(x);
    var end := p + |x.before| + |G.Print(x.v)|;
    var q := end + |x.after|;
    PaddedValue(text, p, x.before, x.v, x.after, ItemsTail(x));
    if x.next.Comma? {
      HoldsBoth(text, q, ",", G.PrintItems(x.next.items));
      ItemsRead(text, q + 1, x.next.items);
    }
    ItemsTurn(text, p, x, end, q, p + |G.PrintItems(x)|);
  }

  lemma ItemsShape(x: G.Items)
    requires G.ItemsOk(x)
    ensures G.PrintItems(x) == x.before + (G.Print(x.v) + (x.after + ItemsTail(x))) && G.Ok(x.v)
    ensures |G.PrintItems(x)| == |x.before| + |G.Print(x.v)| + |x.after| + |ItemsTail(x)|
    ensures ItemsTail(x) != "" && IsCloser(ItemsTail(x)[0])
    ensures x.next.NoItems? ==> ItemsTail(x) == "]"
    ensures x.next.Comma? ==> G.ItemsOk(x.next.items) && ItemsTail(x) == "," + G.PrintItems(x.next.items)
  {
  }

  lemma KeyShape(x: G.Members)
    requires G.MembersOk(x)
    ensures G.PrintKey(x) == x.before + (G.Quoted(x.key) + (x.mid + ":")) && G.PiecesOk(x.key)
    ensures |G.PrintKey(x)| == |x.before| + |G.Quoted(x.key)| + |x.mid| + 1
    ensures G.Quoted(x.key) != "" && !IsWs(G.Quoted(x.key)[0]) && !IsWs(':')
  {
  }

  lemma KeyTurn(text: string, p: nat, at: nat, known: bool, s: string, end: nat, q: nat)
    requires p <= |text| && SkipWs(text, p) == at < |text| && text[at] == '"'
    requires Body(text, at + 1) == Outcome(known, s, end)
    requires end <= |text| && SkipWs(text, end) == q < |text| && text[q] == ':'
    ensures Key(text, p) == Outcome(known, CString(s), q + 1)
    ensures At(text, SkipWs(text, p)) == '"'
  {
    hide Body, SkipWs, CString;
  }

  lemma KeyReads(text: string, p: nat, x: G.Members)
    requires G.MembersOk(x) && Holds(text, p, G.PrintKey(x))
    ensures Key(text, p) == Outcome(G.AllKnown(x.key), CString(ReadPieces(x.key)), p + |G.PrintKey(x)|)
    ensures At(text, SkipWs(text, p)) != '}'
  {
    hide *;
    KeyShape(x);
    var end := p + |x.before| + |G.Quoted(x.key)|;
    HoldsFour(text, p, x.before, G.Quoted(x.key), x.mid, ":");
    QuotedReads(text, p + |x.before|, x.key);
    WhiteThen(text, p, x.before, G.Quoted(x.key));
    WhiteThen(text, end, x.mid, ":");
    KeyTurn(text, p, p + |x.before|, G.AllKnown(x.key), ReadPieces(x.key), end, end + |x.mid|);
  }

  function MembersTail(x: G.Members): string
  {
    if x.next.NoMembers? then "}" else "," + G.PrintMembers(x.next.members)
  }

  lemma {:induction false} MembersRead(text: string, p: nat, x: G.Members)
    requires G.MembersOk(x) && Holds(text, p, G.PrintMembers(x))
    ensures Members(text, p) == Outcome(G.MembersSupported(x), MembersBack(x), p + |G.PrintMembers(x)|)
    ensures At(text, SkipWs(text, p)) != '}'
    decreases x
  {
    hide *;
    MembersShape(x);
    var mid := p + |G.PrintKey(x)|;
    var end := mid + |x.mid'| + |G.Print(x.v)|;
    var q := end + |x.after|;
    HoldsBoth(text, p, G.PrintKey(x), x.mid' + (G.Print(x.v) + (x.after + MembersTail(x))));
    KeyReads(text, p, x);
    PaddedValue(text, mid, x.mid', x.v, x.after, MembersTail(x));
    if x.next.CommaM? {
      HoldsBoth(text, q, ",", G.PrintMembers(x.next.members));
      MembersRead(text, q + 1, x.next.members);
    }
    MembersTurn(text, p, x, mid, end, q, p + |G.PrintMembers(x)|);
  }

  lemma MembersShape(x: G.Members)
    requires G.MembersOk(x)
    ensures G.PrintMembers(x) == G.PrintKey(x) + (x.mid' + (G.Print(x.v) + (x.after + MembersTail(x)))) && G.Ok(x.v)
    ensures |G.PrintMembers(x)| == |G.PrintKey(x)| + |x.mid'| + |G.Print(x.v)| + |x.after| + |MembersTail(x)|
    ensures MembersTail(x) != "" && IsCloser(MembersTail(x)[0])
    ensures x.next.NoMembers? ==> MembersTail(x) == "}"
    ensures x.next.CommaM? ==> G.MembersOk(x.next.members) && MembersTail(x) == "," + G.PrintMembers(x.next.members)
  {
  }

  lemma WholeText(text: string)
    ensures Holds(text, 0, text) && At(text, |text|) == NUL && EndsValue(NUL) && !IsWs(NUL)
  {
  }

  lemma DocumentTurn(text: string, at: nat, supported: bool, j: Json, end: nat)
    requires SkipWs(text, 0) == at && end <= |text|
    requires ValueAt(text, at) == Outcome(supported, j, end) && SkipWs(text, end) == |text|
    ensures Document(text) == Outcome(supported, j, |text|)
  {
    hide ValueAt, SkipWs;
  }

  /** Any RFC 8259 text, with white space around it, is accepted exactly when it uses neither \b
      nor \f, and then read to its end. */
  lemma DocumentReads(before: G.White, v: G.Text, after: G.White)
    requires G.Ok(v)
    ensures var text := before + (G.Print(v) + after);
      Document(text) == Outcome(G.Supported(v), ReadBack(v), |text|)
  {
    hide *;
    var text := before + (G.Print(v) + after);
    WholeText(text);
    var end := |before| + |G.Print(v)|;
    HoldsBoth(text, 0, before, G.Print(v) + after);
    HoldsBoth(text, |before|, G.Print(v), after);
    PrintStarts(v);
    WhiteThen(text, 0, before, G.Print(v));
    WhiteEndsValue(text, end, after, NUL);
    ValueEndsNumber(At(text, end));
    ValueReads(text, |before|, v);
    SkipsWhite(text, end, after);
    DocumentTurn(text, |before|, G.Supported(v), ReadBack(v), end);
  }

  // ---- Nothing may follow ----

  lemma TrailingTurn(text: string, at: nat, supported: bool, j: Json, end: nat)
    requires SkipWs(text, 0) == at && end <= |text|
    requires ValueAt(text, at) == Outcome(supported, j, end) && SkipWs(text, end) < |text|
    ensures Document(text) == Bad && Value(text, 0).Settled()
  {
    hide ValueAt, SkipWs;
  }

  /** A value followed, after any white space, by anything but the end of the text is refused,
      whatever the value is; a number may only not be continued by what follows. */
  lemma TrailingRefused(before: G.White, v: G.Text, after: G.White, c: char, rest: string)
    requires G.Ok(v) && !IsWs(c) && (v.TNumber? && after == "" ==> EndsNumber(c))
    ensures var text := before + (G.Print(v) + (after + ([c] + rest)));
      Document(text) == Bad && Value(text, 0).Settled()
  {
    hide *;
    var text := before + (G.Print(v) + (after + ([c] + rest)));
    WholeText(text);
    TrailingIn(text, before, v, after, c, rest);
  }

  lemma TrailingIn(text: string, before: G.White, v: G.Text, after: G.White, c: char, rest: string)
    requires G.Ok(v) && !IsWs(c) && (v.TNumber? && after == "" ==> EndsNumber(c))
    requires Holds(text, 0, before + (G.Print(v) + (after + ([c] + rest))))
    ensures Document(text) == Bad && Value(text, 0).Settled()
  {
    hide *;
    var end := |before| + |G.Print(v)|;
    HoldsFour(text, 0, before, G.Print(v), after, [c] + rest);
    PrintStarts(v);
    WhiteThen(text, 0, before, G.Print(v));
    WhiteThen(text, end, after, [c] + rest);
    AfterValue(text, end, v, after, c, rest);
    ValueReads(text, |before|, v);
    TrailingTurn(text, |before|, G.Supported(v), ReadBack(v), end);
  }

  lemma AfterValue(text: string, end: nat, v: G.Text, after: G.White, c: char, rest: string)
    requires Holds(text, end, after) && Holds(text, end + |after|, [c] + rest)
    requires v.TNumber? && after == "" ==> EndsNumber(c)
    ensures v.TNumber? ==> EndsNumber(At(text, end))
  {
    hide Holds, EndsNumber, IsWs, At;
    if after == "" {
      HoldsFirst(text, end, [c] + rest);
    } else {
      HoldsFirst(text, end, after);
      WhiteEndsNumber(after[0]);
    }
  }

  lemma WhiteEndsNumber(c: char)
    requires IsWs(c)
    ensures EndsNumber(c)
  {
  }
}
