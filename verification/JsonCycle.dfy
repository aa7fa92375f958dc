/** Writers and the in-place reader together: what is printed, or reported, and then parsed where
    it lies. */
module JsonCycle {
  import opened Options
  import opened JsonValues
  import opened JsonText
  import opened JsonPrint
  import opened JsonRoundTrip
  import opened JsonInPlace
  import opened JsonEscape
  import G = JsonGrammar
  import S = JsonSyntax

  /** What json_parse() accepts, whatever the text: exactly the values of the reader's language with
      white space around them, and the tree denotes that value. */
  method ParseExactly(buf: array<char>, ghost text: string) returns (root: Option<Node>)
    requires |text| < buf.Length && NUL !in text && buf[..|text|] == text && buf[|text|] == NUL
    requires Value(text, 0).Settled()
    modifies buf
    ensures root.Some? <==> exists j :: S.Padded(text, 0, |text|, j)
    ensures root.Some? ==> S.Padded(text, 0, |text|, Read(buf[..], root.value))
  {
    hide *;
    S.RefusedIff(text);
    root := JsonParse(buf, text);
  }

  /** A file that goes on after its value is not parsed, however the value is printed. */
  method RefuseTrailing(buf: array<char>, ghost before: G.White, ghost v: G.Text, ghost after: G.White,
                        ghost c: char, ghost rest: string)
    returns (root: Option<Node>)
    requires G.Ok(v) && !IsWs(c) && c != NUL && NUL !in rest && (v.TNumber? && after == "" ==> EndsNumber(c))
    requires var text := before + (G.Print(v) + (after + ([c] + rest)));
      |text| < buf.Length && buf[..|text|] == text && buf[|text|] == NUL
    modifies buf
    ensures root.None?
  {
    hide *;
    ghost var text := before + (G.Print(v) + (after + ([c] + rest)));
    PrintNoNul(v);
    TrailingRefused(before, v, after, c, rest);
    WhiteNoNul(before);
    WhiteNoNul(after);
    root := JsonParse(buf, text);
  }

  lemma WhiteNoNul(ws: G.White)
    ensures NUL !in ws
  {
  }

  /** A value printed in any way the RFC allows, then parsed in its own buffer: it is refused
      exactly if the print uses \b or \f, and the tree denotes the value exactly if every \u names
      one of 1 to 7f. */
  method ParsePrinted(buf: array<char>, ghost j: Json, ghost before: G.White, ghost v: G.Text, ghost after: G.White)
    returns (root: Option<Node>)
    requires G.Ok(v) && G.Meaning(v) == Std(j)
    requires var text := before + (G.Print(v) + after);
      |text| < buf.Length && buf[..|text|] == text && buf[|text|] == NUL
    modifies buf
    ensures root.Some? <==> G.Supported(v)
    ensures root.Some? ==> (Read(buf[..], root.value) == j <==> G.Exact(v))
    ensures root.Some? ==> Within(buf[..], root.value, 0, |before + (G.Print(v) + after)|)
  {
    hide *;
    ghost var text := before + (G.Print(v) + after);
    PrintedIsReadable(before, v, after);
    ParseInvertsPrint(j, before, v, after);
    root := JsonParse(buf, text);
  }

  /** Any value with NUL-free strings and integer numbers survives being printed and parsed. */
  method PrintThenParse(j: Json) returns (buf: array<char>, root: Option<Node>)
    requires Simple(j)
    ensures root.Some? && Read(buf[..], root.value) == j
  {
    hide *;
    var v := SpellValue(j);
    var text := G.Print(v);
    assert "" + (text + "") == text;
    buf := new char[|text| + 1](i requires 0 <= i <= |text| => if i < |text| then text[i] else NUL);
    assert buf[..|text|] == text;
    root := ParsePrinted(buf, j, "", v, "");
  }

  lemma {:induction false} EscapedNoNul(s: string)
    requires NUL !in s
    ensures NUL !in Escaped(s)
  {
    if s != "" {
      EscapedNoNul(s[1..]);
    }
  }

  lemma ReportIsCString(errbuf: string)
    requires NUL !in errbuf
    ensures NUL !in Report(errbuf)
  {
    hide Fit, Escaped;
    EscapedNoNul(Reported(errbuf));
  }

  function Failure(message: string): Json
  {
    Object([("ok", Bool(false)), ("error", String(message))])
  }

  /** What a client that uses the same reader gets from the body of a validation error: nothing if
      the message cut off its end, else the failure and as much of the message as was written,
      and all of it if it has at most 255 characters. */
  method ReportThenParse(errbuf: string) returns (json: array<char>, root: Option<Node>)
    requires NUL !in errbuf
    ensures root.Some? <==> Closes(errbuf)
    ensures root.Some? ==> Read(json[..], root.value) == Failure(Reported(errbuf))
    ensures |errbuf| <= 255 ==> root.Some? && Reported(errbuf) == errbuf
  {
    hide *;
    ReportIsCString(errbuf);
    ReportReads(errbuf);
    if |errbuf| <= 255 {
      ReportsWholeMessage(errbuf);
    }
    var off;
    json, off := ValidationErrorBody(errbuf);
    root := JsonParse(json, Report(errbuf));
  }

  lemma ReportReads(errbuf: string)
    requires NUL !in errbuf
    ensures var r := Document(Report(errbuf));
      && Value(Report(errbuf), 0).Settled()
      && r == if Closes(errbuf) then Ok(Failure(Reported(errbuf)), |Report(errbuf)|) else Bad
  {
    hide Document, Value, Report, Closes, Reported;
    ReportParses(errbuf);
    SettledDocument(Report(errbuf));
  }

  lemma SettledDocument(text: string)
    ensures Document(text).Ok? || Document(text).Bad? ==> Value(text, 0).Settled()
  {
    hide Value;
  }
}
