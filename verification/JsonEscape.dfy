/** The writer's half of web_status.c: text escaped into a bounded buffer, and the body that
    reports a validation error. */
module JsonEscape {
  import opened JsonValues
  import opened JsonText
  import opened JsonPrint
  import opened JsonRoundTrip
  import G = JsonGrammar

  predicate NeedsEscape(c: char) { c == '"' || c == '\\' }

  function EscapedChar(c: char): string
  {
    if NeedsEscape(c) then ['\\', c] else [c]
  }

  function Escaped(s: string): (r: string)
    ensures |s| <= |r| <= 2 * |s|
  {
    if s == "" then "" else EscapedChar(s[0]) + Escaped(s[1..])
  }

  /** How many characters need an escape. */
  function Specials(s: string): nat
  {
    if s == "" then 0 else Specials(s[1..]) + if s[0] == '"' || s[0] == '\\' then 1 else 0
  }

  /** Quotes and backslashes get a backslash, and nothing else does. */
  lemma {:induction false} EscapesOnlySpecials(s: string)
    ensures |Escaped(s)| == |s| + Specials(s)
    ensures Specials(s) == 0 ==> Escaped(s) == s
  {
    if s != "" {
      EscapesOnlySpecials(s[1..]);
      assert s == [s[0]] + s[1..];
    }
  }

  /** How many characters of src are written into this much room: one more as long as there
      would be room for a pair and the terminator, whether or not a pair is needed. */
  function Fit(src: string, room: nat): (n: nat)
    requires room > 0
    ensures n <= |src| && |Escaped(src[..n])| < room
    ensures n == |src| || room - |Escaped(src[..n])| <= 2
  {
    if src == "" || room <= 2 then 0 else
      var n := Fit(src[1..], room - |EscapedChar(src[0])|);
      assert src[..n + 1][1..] == src[1..][..n];
      n + 1
  }

  lemma {:induction false} EscapedMore(s: string, c: char)
    ensures Escaped(s + [c]) == Escaped(s) + EscapedChar(c)
  {
    if s == "" {
      assert [c][1..] == "";
    } else {
      assert (s + [c])[1..] == s[1..] + [c];
      EscapedMore(s[1..], c);
    }
  }

  /** At each of the first i characters there was room for a pair and the terminator. */
  ghost predicate RoomBefore(src: string, room: nat, i: nat)
  {
    i <= |src| && forall k :: 0 <= k < i ==> room - |Escaped(src[..k])| > 2
  }

  /** Once writing has stopped for lack of room, or of characters, it has written Fit. */
  lemma {:induction false} FitWhere(src: string, room: nat, n: nat)
    requires room > 0 && n <= |src| && |Escaped(src[..n])| < room
    requires n == |src| || room - |Escaped(src[..n])| <= 2
    requires RoomBefore(src, room, n)
    ensures Fit(src, room) == n
    decreases n
  {
    hide Escaped, EscapedChar;
    EscapedNone(src);
    if n > 0 {
      var c := EscapedChar(src[0]);
      forall i | 0 <= i < n
        ensures |Escaped(src[..i + 1])| == |c| + |Escaped(src[1..][..i])|
      {
        EscapedFront(src, i);
      }
      assert |Escaped(src[..0])| == 0;
      forall i | 0 <= i < n - 1
        ensures room - |c| - |Escaped(src[1..][..i])| > 2
      {
        assert room - |Escaped(src[..i + 1])| > 2;
      }
      assert |Escaped(src[..n])| == |c| + |Escaped(src[1..][..n - 1])|;
      FitWhere(src[1..], room - |c|, n - 1);
    }
  }

  lemma EscapedFront(src: string, i: nat)
    requires i < |src|
    ensures Escaped(src[..i + 1]) == EscapedChar(src[0]) + Escaped(src[1..][..i])
  {
    assert src[..i + 1][1..] == src[1..][..i];
  }

  lemma EscapedNone(src: string)
    ensures src[..0] == "" && Escaped(src[..0]) == ""
  {
  }

  lemma EscapedNext(src: string, i: nat)
    requires i < |src|
    ensures Escaped(src[..i + 1]) == Escaped(src[..i]) + EscapedChar(src[i])
  {
    assert src[..i + 1] == src[..i] + [src[i]];
    EscapedMore(src[..i], src[i]);
  }

  /** The buffer as it was, with the first i characters escaped into it from off to off'. */
  ghost predicate Appended(before: string, now: string, off: nat, off': nat, src: string, i: nat)
  {
    && i <= |src| && off' == off + |Escaped(src[..i])| < |now| == |before|
    && now == before[..off] + Escaped(src[..i]) + before[off'..]
  }

  lemma AppendedNext(before: string, now: string, next: string, off: nat, off': nat, src: string, i: nat)
    requires Appended(before, now, off, off', src, i) && i < |src|
    requires var c := EscapedChar(src[i]);
      off' + |c| < |now| && next == now[..off'] + c + now[off' + |c|..]
    ensures Appended(before, next, off, off' + |EscapedChar(src[i])|, src, i + 1)
  {
    hide Escaped, EscapedChar;
    EscapedNext(src, i);
    var done, c := Escaped(src[..i]), EscapedChar(src[i]);
    assert now[..off'] == before[..off] + done;
    assert now[off' + |c|..] == before[off' + |c|..];
  }

  /** The body of the loop in json_escape_append(). */
  method PutEscaped(dst: array<char>, off: nat, c: char) returns (off': nat)
    requires off + 2 < dst.Length
    modifies dst
    ensures off' == off + |EscapedChar(c)| < dst.Length
    ensures dst[..] == old(dst[..off]) + EscapedChar(c) + old(dst[off'..])
  {
    off' := off;
    if NeedsEscape(c) {
      dst[off'] := '\\';
      off' := off' + 1;
    }
    dst[off'] := c;
    off' := off' + 1;
  }

  /** json_escape_append(): never splits a pair, always terminates, touches nothing else. */
  method JsonEscapeAppend(dst: array<char>, off: nat, src: string) returns (off': nat)
    requires off < dst.Length && NUL !in src
    modifies dst
    ensures var n := Fit(src, dst.Length - off);
      && off' == off + |Escaped(src[..n])| < dst.Length
      && dst[..off'] == old(dst[..off]) + Escaped(src[..n]) && dst[off'] == NUL
      && dst[off' + 1..] == old(dst[off' + 1..])
  {
    hide Fit, Escaped, EscapedChar, NeedsEscape, Appended, RoomBefore;
    ghost var before := dst[..];
    off' := off;
    var i := 0;
    AppendedNone(before, off, src);
    RoomNone(src, dst.Length - off);
    while i < |src| && off' + 2 < dst.Length
      invariant Appended(before, dst[..], off, off', src, i) && i <= |src|
      invariant off' == off + |Escaped(src[..i])| < dst.Length
      invariant RoomBefore(src, dst.Length - off, i)
    {
      ghost var now, at := dst[..], off';
      RoomNext(src, dst.Length - off, i);
      off' := PutEscaped(dst, off', src[i]);
      AppendedNext(before, now, dst[..], off, at, src, i);
      i := i + 1;
      AppendedSize(before, dst[..], off, off', src, i);
    }
    FitWhere(src, dst.Length - off, i);
    Terminated(before, dst[..], off, off', src, i);
    dst[off'] := NUL;
  }

  lemma RoomNone(src: string, room: nat)
    ensures RoomBefore(src, room, 0)
  {
  }

  lemma RoomNext(src: string, room: nat, i: nat)
    requires RoomBefore(src, room, i) && i < |src| && room - |Escaped(src[..i])| > 2
    ensures RoomBefore(src, room, i + 1)
  {
  }

  lemma AppendedNone(before: string, off: nat, src: string)
    requires off < |before|
    ensures Appended(before, before, off, off, src, 0) && |Escaped(src[..0])| == 0
  {
    EscapedNone(src);
  }

  lemma AppendedSize(before: string, now: string, off: nat, off': nat, src: string, i: nat)
    requires Appended(before, now, off, off', src, i)
    ensures i <= |src| && off' == off + |Escaped(src[..i])| < |now|
  {
  }

  lemma Terminated(before: string, now: string, off: nat, off': nat, src: string, i: nat)
    requires Appended(before, now, off, off', src, i)
    ensures off <= off' < |now| == |before| && i <= |src|
    ensures now[..off'] == before[..off] + Escaped(src[..i]) && now[off' + 1..] == before[off' + 1..]
  {
    hide Escaped;
  }

  /** Nothing is lost when twice the text fits. */
  lemma {:induction false} FitsWhole(src: string, room: nat)
    requires 2 * |src| < room
    ensures Fit(src, room) == |src|
  {
    if src != "" {
      FitsWhole(src[1..], room - |EscapedChar(src[0])|);
    }
  }

  // ---- What the reader makes of it ----

  lemma EscapeReads(text: string, p: nat, c: char)
    requires Holds(text, p, EscapedChar(c))
    ensures Body(text, p) == Prefixed([c], Body(text, p + |EscapedChar(c)|))
  {
    HoldsFirst(text, p, EscapedChar(c));
    if NeedsEscape(c) {
      assert EscapedChar(c)[1] == text[p + 1];
    }
  }

  lemma EscapedUnfolds(s: string)
    requires s != ""
    ensures Escaped(s) == EscapedChar(s[0]) + Escaped(s[1..])
  {
    hide EscapedChar;
  }

  lemma EscapedStep(s: string, rest: string)
    requires s != ""
    ensures Escaped(s) + rest == EscapedChar(s[0]) + (Escaped(s[1..]) + rest)
    ensures |Escaped(s)| == |EscapedChar(s[0])| + |Escaped(s[1..])|
  {
    hide *;
    EscapedUnfolds(s);
    Assoc(EscapedChar(s[0]), Escaped(s[1..]), rest);
  }

  /** The reader undoes the escaping, */
  lemma {:induction false} Unescapes(text: string, p: nat, s: string)
    requires Holds(text, p, Escaped(s) + "\"")
    ensures Body(text, p) == Ok(s, p + |Escaped(s)| + 1)
    decreases |s|
  {
    hide Body, EscapedChar;
    if s == "" {
      assert Escaped(s) + "\"" == "\"";
      BodyEnds(text, p);
    } else {
      EscapedStep(s, "\"");
      HoldsBoth(text, p, EscapedChar(s[0]), Escaped(s[1..]) + "\"");
      EscapeReads(text, p, s[0]);
      Unescapes(text, p + |EscapedChar(s[0])|, s[1..]);
      assert [s[0]] + s[1..] == s;
    }
  }

  /** and finds no end to text whose closing quote was not written. */
  lemma {:induction false} NeverCloses(text: string, p: nat, s: string)
    requires Holds(text, p, Escaped(s)) && |text| == p + |Escaped(s)|
    ensures Body(text, p) == Bad
    decreases |s|
  {
    if s != "" {
      EscapedStep(s, "");
      assert Escaped(s) + "" == Escaped(s) && Escaped(s[1..]) + "" == Escaped(s[1..]);
      HoldsBoth(text, p, EscapedChar(s[0]), Escaped(s[1..]));
      EscapeReads(text, p, s[0]);
      NeverCloses(text, p + |EscapedChar(s[0])|, s[1..]);
    }
  }

  // ---- The error report ----

  // The start of the body, { "ok": false, "error": ", in the parts that the reader meets.
  const OPEN_OK := "{" + (" " + ("\"" + (("ok" + "\"") + ":")))
  const OPEN_FALSE := " " + ("false" + ",")
  const OPEN_ERROR := " " + ("\"" + (("error" + "\"") + ":"))
  const OPEN_TEXT := " " + "\""
  const OPENING := OPEN_OK + (OPEN_FALSE + (OPEN_ERROR + OPEN_TEXT))
  const CLOSING := "\" }\n"
  const REPORT_SIZE := 768

  /** Of an error message, how much is reported. */
  function Reported(errbuf: string): (s: string)
    ensures s <= errbuf
  {
    errbuf[..Fit(errbuf, REPORT_SIZE - |OPENING|)]
  }

  /** Whether the closing quote and brace still fit. */
  predicate Closes(errbuf: string)
  {
    |OPENING| + |Escaped(Reported(errbuf))| + 4 < REPORT_SIZE
  }

  function Report(errbuf: string): string
  {
    OPENING + (Escaped(Reported(errbuf)) + if Closes(errbuf) then CLOSING else "")
  }

  /** send_validation_error(): what it leaves in its buffer. */
  method ValidationErrorBody(errbuf: string) returns (json: array<char>, off: nat)
    requires NUL !in errbuf
    ensures fresh(json) && off < json.Length == REPORT_SIZE
    ensures json[..off] == Report(errbuf) && json[off] == NUL
  {
    hide Fit, Escaped;
    json := new char[768];
    for i := 0 to |OPENING|
      invariant json[..i] == OPENING[..i]
    {
      json[i] := OPENING[i];
    }
    json[|OPENING|] := NUL;
    assert json[..|OPENING|] == OPENING;
    off := JsonEscapeAppend(json, |OPENING|, errbuf);
    if off + 4 < json.Length {
      off := Close(json, off);
    }
  }

  /** snprintf(): the end of the body and its terminator. */
  method Close(json: array<char>, off: nat) returns (off': nat)
    requires off + 4 < json.Length
    modifies json
    ensures off' == off + 4 && json[..off'] == old(json[..off]) + CLOSING && json[off'] == NUL
  {
    json[off], json[off + 1], json[off + 2], json[off + 3], json[off + 4] := '"', ' ', '}', '\n', NUL;
    off' := off + 4;
  }

  predicate ReportOpens(text: string)
  {
    && 24 < |text| && text[0] == '{' && SkipWs(text, 1) == 2 && text[2] == '"'
    && Key(text, 1) == Ok("ok", 7) && Value(text, 7) == Ok(Bool(false), 13)
    && SkipWs(text, 13) == 13 && text[13] == ','
    && Key(text, 14) == Ok("error", 23) && SkipWs(text, 23) == 24 && text[24] == '"'
  }

  lemma {:induction false} EscapedPlain(s: string)
    requires forall i :: 0 <= i < |s| ==> !NeedsEscape(s[i])
    ensures Escaped(s) == s
  {
    if s != "" {
      EscapedPlain(s[1..]);
    }
  }

  /** A key that needs no escapes. */
  lemma PlainKey(text: string, p: nat, ws: G.White, key: string)
    requires Holds(text, p, ws) && Holds(text, p + |ws|, "\"")
    requires Holds(text, p + |ws| + 1, key + "\"") && Holds(text, p + |ws| + |key| + 2, ":")
    requires NUL !in key && forall i :: 0 <= i < |key| ==> !NeedsEscape(key[i])
    ensures Key(text, p) == Ok(key, p + |ws| + |key| + 3)
    ensures SkipWs(text, p) == p + |ws| < |text| && text[p + |ws|] == '"'
  {
    hide Body, Key, SkipWs, Escaped;
    var at := p + |ws|;
    var q := at + |key| + 2;
    EscapedPlain(key);
    Unescapes(text, at + 1, key);
    CStringWhole(key);
    WhiteThen(text, p, ws, "\"");
    HoldsFirst(text, at, "\"");
    WhiteThen(text, q, "", ":");
    KeyTurn(text, p, at, true, key, q, q);
  }

  lemma OpensReport(text: string)
    requires Holds(text, 0, OPENING)
    ensures ReportOpens(text)
  {
    hide Key, Value, SkipWs, ValueAt, Holds;
    HoldsFour(text, 0, OPEN_OK, OPEN_FALSE, OPEN_ERROR, OPEN_TEXT);
    OpensOk(text);
    OpensFalse(text);
    OpensError(text);
    HoldsBoth(text, 23, " ", "\"");
    WhiteThen(text, 23, " ", "\"");
  }

  lemma OpensOk(text: string)
    requires Holds(text, 0, OPEN_OK)
    ensures 2 < |text| && text[0] == '{' && SkipWs(text, 1) == 2 && text[2] == '"' && Key(text, 1) == Ok("ok", 7)
  {
    hide Key, SkipWs, Holds;
    HoldsBoth(text, 0, "{", " " + ("\"" + (("ok" + "\"") + ":")));
    HoldsFirst(text, 0, "{");
    HoldsFour(text, 1, " ", "\"", "ok" + "\"", ":");
    PlainKey(text, 1, " ", "ok");
  }

  lemma OpensFalse(text: string)
    requires Holds(text, 7, OPEN_FALSE) && Holds(text, 14, OPEN_ERROR)
    ensures Value(text, 7) == Ok(Bool(false), 13) && SkipWs(text, 13) == 13 && text[13] == ','
  {
    hide ValueAt, SkipWs, Holds;
    HoldsBoth(text, 7, " ", "false" + ",");
    HoldsBoth(text, 8, "false", ",");
    WhiteThen(text, 7, " ", "false");
    LiteralReads(text, 8, G.TBool(false));
    WhiteThen(text, 13, "", ",");
  }

  lemma OpensError(text: string)
    requires Holds(text, 14, OPEN_ERROR)
    ensures Key(text, 14) == Ok("error", 23)
  {
    hide Key, SkipWs, Holds;
    HoldsFour(text, 14, " ", "\"", "error" + "\"", ":");
    PlainKey(text, 14, " ", "error");
  }

  /** The value of a report, given what its error string reads as. */
  lemma ReportTurn(text: string, r: Parse<string>)
    requires ReportOpens(text) && Body(text, 25) == r && r.Settled()
    ensures r.Bad? ==> Value(text, 0) == Bad
    ensures r.Ok? && SkipWs(text, r.pos) < |text| && text[SkipWs(text, r.pos)] == '}' ==>
      Value(text, 0) == Ok(Object([("ok", Bool(false)), ("error", String(CString(r.value)))]), SkipWs(text, r.pos) + 1)
  {
    ErrorMember(text, r);
    ReportMembers(text, r);
    hide Key, Body, Members;
    assert ValueAt(text, 0).Ok? ==> Members(text, 1).Ok?;
  }

  lemma ErrorMember(text: string, r: Parse<string>)
    requires ReportOpens(text) && Body(text, 25) == r && r.Settled()
    ensures r.Bad? ==> Member(text, 14) == Bad
    ensures r.Ok? ==> Member(text, 14) == Ok(("error", String(CString(r.value))), r.pos)
  {
    hide Key, Body, Members, Items, Literal, Strtod;
    assert ValueAt(text, 24) == Value(text, 23);
  }

  lemma ReportMembers(text: string, r: Parse<string>)
    requires ReportOpens(text) && Body(text, 25) == r && r.Settled()
    requires r.Bad? ==> Member(text, 14) == Bad
    requires r.Ok? ==> Member(text, 14) == Ok(("error", String(CString(r.value))), r.pos)
    ensures r.Bad? ==> Members(text, 1) == Bad
    ensures r.Ok? && SkipWs(text, r.pos) < |text| && text[SkipWs(text, r.pos)] == '}' ==>
      Members(text, 1) == Ok([("ok", Bool(false)), ("error", String(CString(r.value)))], SkipWs(text, r.pos) + 1)
  {
    hide Key, Body, Value, SkipWs;
    assert Member(text, 1) == Ok(("ok", Bool(false)), 13);
    if r.Ok? && SkipWs(text, r.pos) < |text| && text[SkipWs(text, r.pos)] == '}' {
      assert Members(text, 14) == Ok([("error", String(CString(r.value)))], SkipWs(text, r.pos) + 1);
      assert [("ok", Bool(false))] + [("error", String(CString(r.value)))]
          == [("ok", Bool(false)), ("error", String(CString(r.value)))];
    }
  }

  /** A report is closed exactly if its end and a terminator fit the buffer behind the message. */
  lemma ClosesIffFits(errbuf: string)
    ensures Closes(errbuf) <==> |OPENING + (Escaped(Reported(errbuf)) + CLOSING)| + 1 <= REPORT_SIZE
  {
    hide Escaped, Fit;
  }

  /** The report of an error parses exactly when its end still fits, and then it says that the
      request failed and gives as much of the message as was written. */
  lemma ReportParses(errbuf: string)
    requires NUL !in errbuf
    ensures Document(Report(errbuf)) ==
      Outcome(Closes(errbuf), Object([("ok", Bool(false)), ("error", String(Reported(errbuf)))]), |Report(errbuf)|)
  {
    hide Fit, Escaped, Value, SkipWs, Key, Body, CString, ReportOpens;
    var text, s := Report(errbuf), Reported(errbuf);
    WholeText(text);
    ReportLayout(text, errbuf);
    CStringWhole(s);
    OpensReport(text);
    if Closes(errbuf) {
      Unescapes(text, 25, s);
      ReportTurn(text, Ok(s, 25 + |Escaped(s)| + 1));
    } else {
      NeverCloses(text, 25, s);
      ReportTurn(text, Bad);
    }
  }

  lemma ClosingParts(body: string)
    ensures body + CLOSING == (body + "\"") + (" " + ("}" + "\n"))
  {
  }

  lemma ClosingReads(text: string, p: nat, body: string)
    requires Holds(text, p, body + CLOSING) && |text| == p + |body| + 4
    ensures var end := p + |body| + 1;
      && Holds(text, p, body + "\"")
      && SkipWs(text, end) == end + 1 && text[end + 1] == '}' && SkipWs(text, end + 2) == end + 3
  {
    hide SkipWs;
    var end := p + |body| + 1;
    ClosingParts(body);
    HoldsBoth(text, p, body + "\"", " " + ("}" + "\n"));
    HoldsBoth(text, end, " ", "}" + "\n");
    HoldsBoth(text, end + 1, "}", "\n");
    WhiteThen(text, end, " ", "}");
    SkipsWhite(text, end + 2, "\n");
  }

  lemma ReportLayout(text: string, errbuf: string)
    requires NUL !in errbuf && text == Report(errbuf) && Holds(text, 0, text)
    ensures var s := Reported(errbuf);
      var end := 25 + |Escaped(s)| + 1;
      && Holds(text, 0, OPENING) && NUL !in s
      && (!Closes(errbuf) ==> Holds(text, 25, Escaped(s)) && |text| == end - 1)
      && (Closes(errbuf) ==>
            && Holds(text, 25, Escaped(s) + "\"") && |text| == end + 3
            && SkipWs(text, end) == end + 1 && text[end + 1] == '}' && SkipWs(text, end + 2) == end + 3)
  {
    hide Fit, Escaped, SkipWs, Holds;
    var s := Reported(errbuf);
    var rest := Escaped(s) + if Closes(errbuf) then CLOSING else "";
    HoldsBoth(text, 0, OPENING, rest);
    if Closes(errbuf) {
      ClosingReads(text, 25, Escaped(s));
    } else {
      assert rest == Escaped(s);
    }
  }

  /** Every message that fits the loader's 256-byte buffer is reported whole. */
  lemma ReportsWholeMessage(errbuf: string)
    requires NUL !in errbuf && |errbuf| <= 255
    ensures Reported(errbuf) == errbuf && Closes(errbuf)
    ensures Document(Report(errbuf)) ==
      Ok(Object([("ok", Bool(false)), ("error", String(errbuf))]), |Report(errbuf)|)
  {
    hide Fit, Escaped, Document, Report;
    FitsWhole(errbuf, REPORT_SIZE - |OPENING|);
    ReportParses(errbuf);
  }
}
