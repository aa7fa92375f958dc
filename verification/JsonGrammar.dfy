/** Every text that sections 2 to 7 of RFC 8259 allow, as a syntax tree with all its freedom of
    white space, escapes and number forms, and the value the RFC gives each. */
module JsonGrammar {
  import opened JsonText

  type White = s: string | forall i :: 0 <= i < |s| ==> IsWs(s[i]) witness ""
  type DigitRun = s: string | forall i :: 0 <= i < |s| ==> IsDigit(s[i]) witness ""

  /** One character of a string: itself, a short escape, or \u and four hex digits. */
  datatype Piece = Raw(c: char) | Short(c: char) | Hex4(digits: string)

  datatype Sign = Unsigned | Plus | Minus
  datatype Power = Absent | Power(upper: bool, sign: Sign, digits: DigitRun)

  /** A number; an empty fraction is one that is not written. */
  datatype Numeral = Numeral(minus: bool, whole: DigitRun, fraction: DigitRun, exponent: Power)

  datatype Text =
    | TNull
    | TBool(b: bool)
    | TNumber(n: Numeral)
    | TString(s: seq<Piece>)
    | TEmptyArray(ws: White)
    | TArray(items: Items)
    | TEmptyObject(ws: White)
    | TObject(members: Members)

  datatype Items = Items(before: White, v: Text, after: White, next: MoreItems)
  datatype MoreItems = NoItems | Comma(items: Items)

  datatype Members =
    Members(before: White, key: seq<Piece>, mid: White, mid': White, v: Text, after: White, next: MoreMembers)
  datatype MoreMembers = NoMembers | CommaM(members: Members)

  // ---- Well-formed ----

  predicate PieceOk(x: Piece)
  {
    match x
    case Raw(c) => c >= ' ' && c != '"' && c != '\\'
    case Short(c) => c == '"' || c == '\\' || c == '/' || c == 'b' || c == 'f' || c == 'n' || c == 'r' || c == 't'
    case Hex4(d) => |d| == 4 && FourHex(d, 0)
  }

  predicate PiecesOk(s: seq<Piece>) { forall i :: 0 <= i < |s| ==> PieceOk(s[i]) }

  predicate NumeralOk(n: Numeral)
  {
    && n.whole != "" && (|n.whole| == 1 || n.whole[0] != '0')
    && (n.exponent.Power? ==> n.exponent.digits != "")
  }

  predicate Ok(v: Text)
  {
    match v
    case TNumber(n) => NumeralOk(n)
    case TString(s) => PiecesOk(s)
    case TArray(items) => ItemsOk(items)
    case TObject(members) => MembersOk(members)
    case _ => true
  }

  predicate ItemsOk(x: Items)
  {
    Ok(x.v) && (x.next.Comma? ==> ItemsOk(x.next.items))
  }

  predicate MembersOk(x: Members)
  {
    PiecesOk(x.key) && Ok(x.v) && (x.next.CommaM? ==> MembersOk(x.next.members))
  }

  // ---- Printed ----

  function PrintPiece(x: Piece): string
  {
    match x
    case Raw(c) => [c]
    case Short(c) => ['\\', c]
    case Hex4(d) => "\\u" + d
  }

  function Spell(s: seq<Piece>): string
  {
    if s == [] then "" else PrintPiece(s[0]) + Spell(s[1..])
  }

  function Quoted(s: seq<Piece>): string
  {
    "\"" + (Spell(s) + "\"")
  }

  function PrintSign(s: Sign): string
  {
    match s
    case Unsigned => ""
    case Plus => "+"
    case Minus => "-"
  }

  function Mark(e: Power): char
    requires e.Power?
  {
    if e.upper then 'E' else 'e'
  }

  function PrintPower(e: Power): string
  {
    if e.Absent? then "" else [Mark(e)] + (PrintSign(e.sign) + e.digits)
  }

  function PrintFraction(f: DigitRun): string
  {
    if f == "" then "" else "." + f
  }

  function PrintNumeral(n: Numeral): string
  {
    (if n.minus then "-" else "") + (n.whole + (PrintFraction(n.fraction) + PrintPower(n.exponent)))
  }

  function Print(v: Text): string
  {
    match v
    case TNull => "null"
    case TBool(b) => if b then "true" else "false"
    case TNumber(n) => PrintNumeral(n)
    case TString(s) => Quoted(s)
    case TEmptyArray(ws) => "[" + (ws + "]")
    case TArray(items) => "[" + PrintItems(items)
    case TEmptyObject(ws) => "{" + (ws + "}")
    case TObject(members) => "{" + PrintMembers(members)
  }

  /** The items of an array and its closing bracket. */
  function PrintItems(x: Items): string
  {
    x.before + (Print(x.v) + (x.after + (if x.next.NoItems? then "]" else "," + PrintItems(x.next.items))))
  }

  function PrintKey(x: Members): string
  {
    x.before + (Quoted(x.key) + (x.mid + ":"))
  }

  /** The members of an object and its closing brace. */
  function PrintMembers(x: Members): string
  {
    PrintKey(x) + (x.mid' + (Print(x.v) + (x.after +
      (if x.next.NoMembers? then "}" else "," + PrintMembers(x.next.members)))))
  }

  // ---- What the RFC means by it ----

  /** A JSON value with the RFC's strings, which may hold any code unit. */
  datatype Std =
    | SNull
    | SBool(b: bool)
    | SNumber(n: real)
    | SString(s: seq<nat>)
    | SArray(items: seq<Std>)
    | SObject(members: seq<(seq<nat>, Std)>)

  function Unit(x: Piece): nat
    requires PieceOk(x)
  {
    match x
    case Raw(c) => c as nat
    case Short(c) =>
      (match c
       case 'b' => 8
       case 'f' => 12
       case 'n' => 10
       case 'r' => 13
       case 't' => 9
       case _ => c as nat)
    case Hex4(d) => CodePoint(d, 0)
  }

  function Units(s: seq<Piece>): seq<nat>
    requires PiecesOk(s)
  {
    seq(|s|, i requires 0 <= i < |s| => Unit(s[i]))
  }

  function PowerValue(e: Power): int
  {
    if e.Absent? then 0 else Signed(e.sign.Minus?, Digits(e.digits))
  }

  /** All digits as one integer, scaled by the exponent less the length of the fraction. */
  function NumeralValue(n: Numeral): real
  {
    var size := Tens(Digits(n.whole + n.fraction) as real, PowerValue(n.exponent) - |n.fraction|);
    if n.minus then -size else size
  }

  function Meaning(v: Text): Std
    requires Ok(v)
  {
    match v
    case TNull => SNull
    case TBool(b) => SBool(b)
    case TNumber(n) => SNumber(NumeralValue(n))
    case TString(s) => SString(Units(s))
    case TEmptyArray(_) => SArray([])
    case TArray(items) => SArray(ItemsMeaning(items))
    case TEmptyObject(_) => SObject([])
    case TObject(members) => SObject(MembersMeaning(members))
  }

  function ItemsMeaning(x: Items): seq<Std>
    requires ItemsOk(x)
  {
    [Meaning(x.v)] + if x.next.NoItems? then [] else ItemsMeaning(x.next.items)
  }

  function MembersMeaning(x: Members): seq<(seq<nat>, Std)>
    requires MembersOk(x)
  {
    [(Units(x.key), Meaning(x.v))] + if x.next.NoMembers? then [] else MembersMeaning(x.next.members)
  }

  // ---- What this reader supports ----

  /** It knows every escape but \b and \f. */
  predicate Known(x: Piece) { !(x.Short? && (x.c == 'b' || x.c == 'f')) }

  predicate AllKnown(s: seq<Piece>) { forall i :: 0 <= i < |s| ==> Known(s[i]) }

  predicate Supported(v: Text)
  {
    match v
    case TString(s) => AllKnown(s)
    case TArray(items) => ItemsSupported(items)
    case TObject(members) => MembersSupported(members)
    case _ => true
  }

  predicate ItemsSupported(x: Items)
  {
    Supported(x.v) && (x.next.Comma? ==> ItemsSupported(x.next.items))
  }

  predicate MembersSupported(x: Members)
  {
    AllKnown(x.key) && Supported(x.v) && (x.next.CommaM? ==> MembersSupported(x.next.members))
  }

  /** It has no way to hold NUL, and writes '?' for whatever \u names above 0x7f. */
  predicate Plain(x: Piece)
    requires PieceOk(x)
  {
    x.Hex4? ==> 0 < CodePoint(x.digits, 0) < 0x80
  }

  predicate AllPlain(s: seq<Piece>)
    requires PiecesOk(s)
  {
    forall i :: 0 <= i < |s| ==> Plain(s[i])
  }

  predicate Exact(v: Text)
    requires Ok(v)
  {
    match v
    case TString(s) => AllPlain(s)
    case TArray(items) => ItemsExact(items)
    case TObject(members) => MembersExact(members)
    case _ => true
  }

  predicate ItemsExact(x: Items)
    requires ItemsOk(x)
  {
    Exact(x.v) && (x.next.Comma? ==> ItemsExact(x.next.items))
  }

  predicate MembersExact(x: Members)
    requires MembersOk(x)
  {
    AllPlain(x.key) && Exact(x.v) && (x.next.CommaM? ==> MembersExact(x.next.members))
  }
}
