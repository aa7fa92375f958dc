/** Which printed values json_parse() gives back unchanged: all that avoid the escapes it does
    not know or cannot represent. */
module JsonRoundTrip {
  import opened JsonValues
  import opened JsonText
  import opened JsonPrint
  import G = JsonGrammar

  function Widen(s: string): seq<nat>
  {
    seq(|s|, i requires 0 <= i < |s| => s[i] as nat)
  }

  /** A value of this reader as a value of the RFC. */
  function Std(j: Json): G.Std
  {
    match j
    case Null => G.SNull
    case Bool(b) => G.SBool(b)
    case Number(n) => G.SNumber(n)
    case String(s) => G.SString(Widen(s))
    case Array(items) => G.SArray(seq(|items|, i requires 0 <= i < |items| => Std(items[i])))
    case Object(members) =>
      G.SObject(seq(|members|, i requires 0 <= i < |members| => (Widen(members[i].0), Std(members[i].1))))
  }

  // ---- What survives reading ----

  lemma {:induction false} CStringWhole(s: string)
    ensures |CString(s)| <= |s|
    ensures |CString(s)| == |s| <==> NUL !in s
    ensures NUL !in s ==> CString(s) == s
  {
    if s != [] {
      CStringWhole(s[1..]);
      assert s == [s[0]] + s[1..];
    }
  }

  lemma PieceExactIff(x: G.Piece)
    requires G.PieceOk(x)
    ensures ReadPiece(x) as nat == G.Unit(x) && ReadPiece(x) != NUL <==> G.Plain(x)
  {
    hide CodePoint, FourHex;
  }

  /** A string keeps its code units exactly when every \u escape in it names one of 1 to 7f. */
  lemma StringExactIff(s: seq<G.Piece>)
    requires G.PiecesOk(s)
    ensures Widen(CString(ReadPieces(s))) == G.Units(s) <==> G.AllPlain(s)
  {
    hide ReadPieces, ReadPiece, CString, G.Unit, G.Plain, G.PieceOk;
    var r := ReadPieces(s);
    CStringWhole(r);
    forall i | 0 <= i < |s| ensures r[i] as nat == G.Unit(s[i]) && r[i] != NUL <==> G.Plain(s[i]) {
      PieceExactIff(s[i]);
    }
    if G.AllPlain(s) {
      assert Widen(r) == G.Units(s);
    }
    if Widen(CString(r)) == G.Units(s) {
      assert |Widen(CString(r))| == |s|;
      forall i | 0 <= i < |s| ensures G.Plain(s[i]) {
        assert Widen(r)[i] == G.Units(s)[i];
        assert r[i] in r;
      }
    }
  }

  /** What the reader makes of a text is what the RFC means by it exactly when every string in
      it is plain. */
  lemma {:induction false} ExactIff(v: G.Text)
    requires G.Ok(v)
    ensures Std(ReadBack(v)) == G.Meaning(v) <==> G.Exact(v)
    decreases v
  {
    match v
    case TString(s) => StringExactIff(s);
    case TArray(items) => ItemsExactIff(items);
    case TObject(members) => MembersExactIff(members);
    case _ =>
  }

  function StdItems(items: seq<Json>): seq<G.Std>
  {
    seq(|items|, i requires 0 <= i < |items| => Std(items[i]))
  }

  function StdMembers(members: seq<(string, Json)>): seq<(seq<nat>, G.Std)>
  {
    seq(|members|, i requires 0 <= i < |members| => (Widen(members[i].0), Std(members[i].1)))
  }

  function RestBack(x: G.Items): seq<Json>
    requires G.ItemsOk(x)
  {
    if x.next.Comma? then ItemsBack(x.next.items) else []
  }

  function RestMeaning(x: G.Items): seq<G.Std>
    requires G.ItemsOk(x)
  {
    if x.next.Comma? then G.ItemsMeaning(x.next.items) else []
  }

  lemma ItemsParts(x: G.Items)
    requires G.ItemsOk(x)
    ensures G.Ok(x.v) && StdItems(ItemsBack(x)) == [Std(ReadBack(x.v))] + StdItems(RestBack(x))
    ensures G.ItemsMeaning(x) == [G.Meaning(x.v)] + RestMeaning(x)
    ensures x.next.Comma? ==> G.ItemsOk(x.next.items)
    ensures G.ItemsExact(x) <==> G.Exact(x.v) && (x.next.Comma? ==> G.ItemsExact(x.next.items))
    ensures x.next.NoItems? ==> StdItems(RestBack(x)) == RestMeaning(x)
    ensures x.next.Comma? ==>
      RestBack(x) == ItemsBack(x.next.items) && RestMeaning(x) == G.ItemsMeaning(x.next.items)
  {
    hide Std, ReadBack, G.Meaning, G.Exact, G.Ok;
  }

  lemma {:induction false} ItemsExactIff(x: G.Items)
    requires G.ItemsOk(x)
    ensures StdItems(ItemsBack(x)) == G.ItemsMeaning(x) <==> G.ItemsExact(x)
    decreases x
  {
    hide *;
    ItemsParts(x);
    ExactIff(x.v);
    ConsEqual(Std(ReadBack(x.v)), StdItems(RestBack(x)), G.Meaning(x.v), RestMeaning(x));
    if x.next.Comma? {
      ItemsExactIff(x.next.items);
    }
  }

  function RestMembersBack(x: G.Members): seq<(string, Json)>
    requires G.MembersOk(x)
  {
    if x.next.CommaM? then MembersBack(x.next.members) else []
  }

  function RestMembersMeaning(x: G.Members): seq<(seq<nat>, G.Std)>
    requires G.MembersOk(x)
  {
    if x.next.CommaM? then G.MembersMeaning(x.next.members) else []
  }

  lemma MembersParts(x: G.Members)
    requires G.MembersOk(x)
    ensures G.PiecesOk(x.key) && G.Ok(x.v)
    ensures var m := (Widen(CString(ReadPieces(x.key))), Std(ReadBack(x.v)));
      StdMembers(MembersBack(x)) == [m] + StdMembers(RestMembersBack(x))
    ensures G.MembersMeaning(x) == [(G.Units(x.key), G.Meaning(x.v))] + RestMembersMeaning(x)
    ensures x.next.CommaM? ==> G.MembersOk(x.next.members)
    ensures G.MembersExact(x) <==>
      G.AllPlain(x.key) && G.Exact(x.v) && (x.next.CommaM? ==> G.MembersExact(x.next.members))
    ensures x.next.NoMembers? ==> StdMembers(RestMembersBack(x)) == RestMembersMeaning(x)
    ensures x.next.CommaM? ==>
      && RestMembersBack(x) == MembersBack(x.next.members)
      && RestMembersMeaning(x) == G.MembersMeaning(x.next.members)
  {
    hide Std, ReadBack, G.Meaning, G.Exact, G.Ok, CString, ReadPieces, G.Units, G.AllPlain, Widen;
  }

  lemma {:induction false} MembersExactIff(x: G.Members)
    requires G.MembersOk(x)
    ensures StdMembers(MembersBack(x)) == G.MembersMeaning(x) <==> G.MembersExact(x)
    decreases x
  {
    hide *;
    MembersParts(x);
    StringExactIff(x.key);
    ExactIff(x.v);
    var m := (Widen(CString(ReadPieces(x.key))), Std(ReadBack(x.v)));
    ConsEqual(m, StdMembers(RestMembersBack(x)), (G.Units(x.key), G.Meaning(x.v)), RestMembersMeaning(x));
    if x.next.CommaM? {
      MembersExactIff(x.next.members);
    }
  }

  lemma ConsEqual<T>(x: T, s: seq<T>, y: T, t: seq<T>)
    ensures [x] + s == [y] + t <==> x == y && s == t
  {
    if [x] + s == [y] + t {
      assert x == ([x] + s)[0] == y;
      assert s == ([x] + s)[1..] == ([y] + t)[1..] == t;
    }
  }

  lemma WidenInjective(s: string, t: string)
    ensures Widen(s) == Widen(t) <==> s == t
  {
    if Widen(s) == Widen(t) {
      assert |s| == |Widen(s)| == |t|;
      forall i | 0 <= i < |s| ensures s[i] == t[i] {
        assert s[i] as nat == Widen(s)[i] == Widen(t)[i] == t[i] as nat;
      }
    }
  }

  lemma {:induction false} StdInjective(j: Json, k: Json)
    requires Std(j) == Std(k)
    ensures j == k
    decreases j
  {
    match j
    case String(s) => WidenInjective(s, k.s);
    case Array(items) =>
      assert |items| == |Std(j).items| == |k.items|;
      forall i | 0 <= i < |items| ensures items[i] == k.items[i] {
        assert Std(items[i]) == Std(j).items[i] == Std(k).items[i] == Std(k.items[i]);
        StdInjective(items[i], k.items[i]);
      }
    case Object(members) =>
      assert |members| == |Std(j).members| == |k.members|;
      forall i | 0 <= i < |members| ensures members[i] == k.members[i] {
        assert Std(j).members[i] == Std(k).members[i];
        WidenInjective(members[i].0, k.members[i].0);
        StdInjective(members[i].1, k.members[i].1);
      }
    case _ =>
  }

  /** Parse inverts print: a value printed in any way the RFC allows comes back as that value
      exactly when the print uses neither \b nor \f, and \u only for the characters 1 to 7f. */
  lemma ParseInvertsPrint(j: Json, before: G.White, v: G.Text, after: G.White)
    requires G.Ok(v) && G.Meaning(v) == Std(j)
    ensures var text := before + (G.Print(v) + after);
      && (Document(text) == Ok(j, |text|) <==> G.Supported(v) && G.Exact(v))
      && (Document(text) == Bad <==> !G.Supported(v))
  {
    hide *;
    DocumentReads(before, v, after);
    ExactIff(v);
    if G.Exact(v) {
      StdInjective(ReadBack(v), j);
    }
    OutcomeIs(G.Supported(v), ReadBack(v), j, |before + (G.Print(v) + after)|);
  }

  lemma OutcomeIs(supported: bool, r: Json, j: Json, end: nat)
    ensures Outcome(supported, r, end) == Ok(j, end) <==> supported && r == j
    ensures Outcome(supported, r, end) == Bad <==> !supported
  {
  }

  // ---- Such texts are C strings on which the reader never asks sscanf() or strtod() ----

  lemma {:induction false} SpellNoNul(s: seq<G.Piece>)
    requires G.PiecesOk(s)
    ensures NUL !in G.Spell(s) && NUL !in G.Quoted(s)
    decreases |s|
  {
    if s != [] {
      SpellNoNul(s[1..]);
      assert G.PieceOk(s[0]);
      if s[0].Hex4? {
        assert forall c :: c in s[0].digits ==> IsHex(c);
      }
    }
  }

  lemma DigitsNoNul(s: G.DigitRun)
    ensures NUL !in s
  {
  }

  lemma PowerNoNul(e: G.Power)
    ensures NUL !in G.PrintPower(e)
  {
    if e.Power? {
      DigitsNoNul(e.digits);
    }
  }

  lemma FractionNoNul(f: G.DigitRun)
    ensures NUL !in G.PrintFraction(f)
  {
    DigitsNoNul(f);
  }

  lemma NumeralNoNul(n: G.Numeral)
    ensures NUL !in G.PrintNumeral(n)
  {
    hide G.PrintFraction, G.PrintPower;
    DigitsNoNul(n.whole);
    FractionNoNul(n.fraction);
    PowerNoNul(n.exponent);
  }

  lemma {:induction false} PrintNoNul(v: G.Text)
    requires G.Ok(v)
    ensures NUL !in G.Print(v)
    decreases v
  {
    match v
    case TNumber(n) => NumeralNoNul(n);
    case TString(s) => SpellNoNul(s);
    case TArray(items) => ItemsNoNul(items);
    case TObject(members) => MembersNoNul(members);
    case _ =>
  }

  lemma {:induction false} ItemsNoNul(x: G.Items)
    requires G.ItemsOk(x)
    ensures NUL !in G.PrintItems(x)
    decreases x
  {
    PrintNoNul(x.v);
    ItemsShape(x);
    if x.next.Comma? {
      ItemsNoNul(x.next.items);
    }
  }

  lemma {:induction false} MembersNoNul(x: G.Members)
    requires G.MembersOk(x)
    ensures NUL !in G.PrintMembers(x)
    decreases x
  {
    SpellNoNul(x.key);
    PrintNoNul(x.v);
    MembersShape(x);
    KeyShape(x);
    if x.next.CommaM? {
      MembersNoNul(x.next.members);
    }
  }

  /** So the in-place parser agrees with Document on every text that the RFC allows. */
  lemma PrintedIsReadable(before: G.White, v: G.Text, after: G.White)
    requires G.Ok(v)
    ensures var text := before + (G.Print(v) + after);
      NUL !in text && Value(text, 0).Settled()
  {
    hide G.Print, Value;
    PrintNoNul(v);
    DocumentReads(before, v, after);
  }

  // ---- Every value the reader can hold has such a print ----

  function SpellChar(c: char): (x: G.Piece)
    requires c != NUL
    ensures G.PieceOk(x) && G.Known(x) && G.Plain(x) && G.Unit(x) == c as nat
  {
    if c == '"' || c == '\\' then G.Short(c)
    else if c < ' ' then G.Hex4(['0', '0', HexDigit(c as nat / 16), HexDigit(c as nat % 16)])
    else G.Raw(c)
  }

  function SpellString(s: string): (r: seq<G.Piece>)
    requires NUL !in s
    ensures G.PiecesOk(r) && G.AllKnown(r) && G.AllPlain(r) && G.Units(r) == Widen(s)
  {
    seq(|s|, i requires 0 <= i < |s| => SpellChar(s[i]))
  }

  function Decimal(n: nat): (s: G.DigitRun)
    ensures s != "" && (|s| == 1 || s[0] != '0') && Digits(s) == n
    ensures n > 0 ==> s[0] != '0'
  {
    if n < 10 then [HexDigit(n)] else Decimal(n / 10) + [HexDigit(n % 10)]
  }

  /** NUL-free strings and integer numbers, at any depth. */
  predicate Simple(j: Json)
  {
    match j
    case Number(n) => n.Floor as real == n
    case String(s) => NUL !in s
    case Array(items) => forall i :: 0 <= i < |items| ==> Simple(items[i])
    case Object(members) => forall i :: 0 <= i < |members| ==> NUL !in members[i].0 && Simple(members[i].1)
    case _ => true
  }

  function SpellNumber(n: real): (r: G.Numeral)
    requires n.Floor as real == n
    ensures G.NumeralOk(r) && G.NumeralValue(r) == n
  {
    var i := n.Floor;
    var digits := Decimal(if i < 0 then -i else i);
    assert digits + "" == digits;
    G.Numeral(i < 0, digits, "", G.Absent)
  }

  function SpellValue(j: Json): (v: G.Text)
    requires Simple(j)
    ensures G.Ok(v) && G.Supported(v) && G.Exact(v) && G.Meaning(v) == Std(j)
    decreases j
  {
    match j
    case Null => G.TNull
    case Bool(b) => G.TBool(b)
    case Number(n) => G.TNumber(SpellNumber(n))
    case String(s) => G.TString(SpellString(s))
    case Array(items) =>
      assert Std(j).items == StdItems(items);
      if items == [] then G.TEmptyArray("") else G.TArray(SpellItems(items))
    case Object(members) =>
      assert Std(j).members == StdMembers(members);
      if members == [] then G.TEmptyObject("") else G.TObject(SpellMembers(members))
  }

  function SpellItems(items: seq<Json>): (x: G.Items)
    requires items != [] && forall i :: 0 <= i < |items| ==> Simple(items[i])
    ensures G.ItemsOk(x) && G.ItemsSupported(x) && G.ItemsExact(x) && G.ItemsMeaning(x) == StdItems(items)
    decreases items
  {
    var rest := if |items| == 1 then G.NoItems else G.Comma(SpellItems(items[1..]));
    assert StdItems(items) == [Std(items[0])] + StdItems(items[1..]);
    G.Items("", SpellValue(items[0]), "", rest)
  }

  function SpellMembers(members: seq<(string, Json)>): (x: G.Members)
    requires members != [] && forall i :: 0 <= i < |members| ==> NUL !in members[i].0 && Simple(members[i].1)
    ensures G.MembersOk(x) && G.MembersSupported(x) && G.MembersExact(x)
    ensures G.MembersMeaning(x) == StdMembers(members)
    decreases members
  {
    var rest := if |members| == 1 then G.NoMembers else G.CommaM(SpellMembers(members[1..]));
    assert StdMembers(members) == [(Widen(members[0].0), Std(members[0].1))] + StdMembers(members[1..]);
    var m := members[0];
    assert m.1 < m;
    G.Members("", SpellString(m.0), "", "", SpellValue(m.1), "", rest)
  }
}
