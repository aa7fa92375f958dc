/** The texts that the reader accepts, all of them and no others, and what they denote: JSON with
    the reader's own strings and numbers. */
module JsonSyntax {
  import opened JsonValues
  import opened JsonText

  /** Nothing but white space from a up to b. */
  predicate White(text: string, a: nat, b: nat)
  {
    a <= b <= |text| && forall i :: a <= i < b ==> IsWs(text[i])
  }

  /** What follows a backslash, from p up to r, stands for c: one of seven characters, or u and four
      more, of which sscanf() made a code point. */
  predicate IsEscape(text: string, p: nat, r: nat, c: char)
  {
    && p < r <= |text|
    && if text[p] == 'u' then
         && r == p + 5 && Scan4x(text[p + 1..]).Match?
         && var cp := Scan4x(text[p + 1..]).cp;
            c == if cp < 0x80 then cp as char else '?'
       else
         && r == p + 1
         && ((text[p] == '"' && c == '"') || (text[p] == '\\' && c == '\\') || (text[p] == '/' && c == '/') ||
             (text[p] == 'n' && c == '\n') || (text[p] == 't' && c == '\t') || (text[p] == 'r' && c == '\r'))
  }

  /** The body of a string and its closing quote, from p up to q. Any character but a quote and a
      backslash stands for itself. */
  ghost predicate IsBody(text: string, p: nat, q: nat, s: string)
    decreases |s|
  {
    if s == "" then p < |text| && text[p] == '"' && q == p + 1
    else
      || (p < |text| && text[p] != '"' && text[p] != '\\' && s[0] == text[p] && IsBody(text, p + 1, q, s[1..]))
      || (p < |text| && text[p] == '\\' && exists r: nat :: IsEscape(text, p + 1, r, s[0]) && IsBody(text, r, q, s[1..]))
  }

  ghost predicate IsString(text: string, p: nat, q: nat, s: string)
  {
    p < |text| && text[p] == '"' && exists body :: IsBody(text, p + 1, q, body) && s == CString(body)
  }

  ghost predicate IsValue(text: string, p: nat, q: nat, v: Json)
    decreases v, 1
  {
    && p < q <= |text|
    && match v
       case Null => text[p..q] == "null"
       case Bool(b) => text[p..q] == if b then "true" else "false"
       case Number(n) => (text[p] == '-' || IsDigit(text[p])) && Strtod(text[p..]) == Ok(n, q - p)
       case String(s) => IsString(text, p, q, s)
       case Array(items) =>
         text[p] == '[' &&
         if items == [] then White(text, p + 1, q - 1) && p + 1 < q && text[q - 1] == ']'
         else IsItems(text, p + 1, q, items)
       case Object(members) =>
         text[p] == '{' &&
         if members == [] then White(text, p + 1, q - 1) && p + 1 < q && text[q - 1] == '}'
         else IsMembers(text, p + 1, q, members)
  }

  /** A value with white space around it. */
  ghost predicate Padded(text: string, p: nat, q: nat, v: Json)
    decreases v, 2
  {
    exists a: nat, e: nat :: White(text, p, a) && IsValue(text, a, e, v) && White(text, e, q)
  }

  /** Items with commas between them, and the closing bracket. */
  ghost predicate IsItems(text: string, p: nat, q: nat, items: seq<Json>)
    requires items != []
    decreases items, 0
  {
    exists c: nat ::
      && Padded(text, p, c, items[0]) && c < |text|
      && if |items| == 1 then text[c] == ']' && q == c + 1
         else text[c] == ',' && IsItems(text, c + 1, q, items[1..])
  }

  /** A key with white space around it, and a colon. */
  ghost predicate IsKey(text: string, p: nat, q: nat, name: string)
  {
    exists a: nat, e: nat, c: nat ::
      White(text, p, a) && IsString(text, a, e, name) && White(text, e, c) && c < |text| && text[c] == ':' && q == c + 1
  }

  /** Members with commas between them, and the closing brace. */
  ghost predicate IsMembers(text: string, p: nat, q: nat, members: seq<(string, Json)>)
    requires members != []
    decreases members, 0
  {
    assert members[0].1 < members[0];
    exists m: nat, c: nat ::
      && IsKey(text, p, m, members[0].0) && Padded(text, m, c, members[0].1) && c < |text|
      && if |members| == 1 then text[c] == '}' && q == c + 1
         else text[c] == ',' && IsMembers(text, c + 1, q, members[1..])
  }

  // ---- White space ----

  lemma {:induction false} SkipIsWhite(text: string, p: nat)
    requires p <= |text|
    ensures White(text, p, SkipWs(text, p))
    ensures SkipWs(text, p) < |text| ==> !IsWs(text[SkipWs(text, p)])
    decreases |text| - p
  {
    if p < |text| && IsWs(text[p]) {
      SkipIsWhite(text, p + 1);
    }
  }

  lemma {:induction false} WhiteIsSkipped(text: string, p: nat, a: nat)
    requires White(text, p, a) && (a < |text| ==> !IsWs(text[a]))
    ensures SkipWs(text, p) == a
    decreases a - p
  {
    if p < a {
      WhiteIsSkipped(text, p + 1, a);
    }
  }

  // ---- Strings ----

  lemma EscapeIff(text: string, p: nat, c: char, r: nat)
    requires p <= |text|
    ensures Escape(text, p) == Ok(c, r) <==> IsEscape(text, p, r, c)
  {
    hide Scan4x;
  }

  lemma {:induction false} BodyIs(text: string, p: nat)
    requires p <= |text| && Body(text, p).Ok?
    ensures IsBody(text, p, Body(text, p).pos, Body(text, p).value)
    decreases |text| - p
  {
    hide Escape, IsEscape;
    if text[p] == '"' {
    } else if text[p] == '\\' {
      var e := Escape(text, p + 1);
      EscapeIff(text, p + 1, e.value, e.pos);
      BodyIs(text, e.pos);
      assert Body(text, p).value[1..] == Body(text, e.pos).value;
    } else {
      BodyIs(text, p + 1);
      assert Body(text, p).value[1..] == Body(text, p + 1).value;
    }
  }

  lemma {:induction false} BodyReadsIt(text: string, p: nat, q: nat, s: string)
    requires p <= |text| && IsBody(text, p, q, s)
    ensures Body(text, p) == Ok(s, q)
    decreases |s|
  {
    hide Escape, IsEscape;
    if s != "" {
      assert s == [s[0]] + s[1..];
      if text[p] == '\\' {
        var r: nat :| IsEscape(text, p + 1, r, s[0]) && IsBody(text, r, q, s[1..]);
        EscapeIff(text, p + 1, s[0], r);
        BodyReadsIt(text, r, q, s[1..]);
      } else {
        BodyReadsIt(text, p + 1, q, s[1..]);
      }
    }
  }

  lemma StringIff(text: string, p: nat, q: nat, s: string)
    requires p < |text| && text[p] == '"'
    ensures IsString(text, p, q, s) <==>
      Body(text, p + 1).Ok? && Body(text, p + 1).pos == q && s == CString(Body(text, p + 1).value)
  {
    hide Body, CString, IsBody;
    if Body(text, p + 1).Ok? {
      BodyIs(text, p + 1);
    }
    if IsString(text, p, q, s) {
      var body :| IsBody(text, p + 1, q, body) && s == CString(body);
      BodyReadsIt(text, p + 1, q, body);
    }
  }

  // ---- What is read is of the language ----

  lemma LiteralIs(text: string, p: nat)
    requires p < |text| && Literal(text, p).Ok?
    ensures IsValue(text, p, Literal(text, p).pos, Literal(text, p).value)
  {
    var r := Literal(text, p);
    assert text[p..r.pos] == text[p..][..r.pos - p];
  }

  lemma {:induction false} ValueIs(text: string, p: nat)
    requires p <= |text| && Value(text, p).Ok?
    ensures White(text, p, SkipWs(text, p))
    ensures IsValue(text, SkipWs(text, p), Value(text, p).pos, Value(text, p).value)
    decreases |text| - p, 1
  {
    SkipIsWhite(text, p);
    ValueAtIs(text, SkipWs(text, p));
  }

  lemma {:induction false} PaddedIs(text: string, p: nat)
    requires p <= |text| && Value(text, p).Ok?
    ensures Padded(text, p, SkipWs(text, Value(text, p).pos), Value(text, p).value)
    decreases |text| - p, 2
  {
    hide Value, IsValue, SkipWs, White;
    ValueIs(text, p);
    SkipIsWhite(text, Value(text, p).pos);
  }

  lemma EmptyIs(text: string, p: nat)
    requires p < |text| && (text[p] == '[' || text[p] == '{')
    ensures var q := SkipWs(text, p + 1);
      && (text[p] == '[' && At(text, q) == ']' ==> IsValue(text, p, q + 1, Array([])))
      && (text[p] == '{' && At(text, q) == '}' ==> IsValue(text, p, q + 1, Object([])))
  {
    SkipIsWhite(text, p + 1);
  }

  lemma {:induction false} ValueAtIs(text: string, p: nat)
    requires p <= |text| && ValueAt(text, p).Ok?
    ensures IsValue(text, p, ValueAt(text, p).pos, ValueAt(text, p).value)
    decreases |text| - p, 0
  {
    hide Items, Members, Body, Strtod, Literal, White, IsString, IsItems, IsMembers;
    if text[p] == '{' {
      EmptyIs(text, p);
      if At(text, SkipWs(text, p + 1)) != '}' {
        MembersAre(text, p + 1);
      }
    } else if text[p] == '[' {
      EmptyIs(text, p);
      if At(text, SkipWs(text, p + 1)) != ']' {
        ItemsAre(text, p + 1);
      }
    } else if text[p] == '"' {
      StringIff(text, p, ValueAt(text, p).pos, ValueAt(text, p).value.s);
    } else if text[p] == 't' || text[p] == 'f' || text[p] == 'n' {
      LiteralIs(text, p);
    }
  }

  lemma {:induction false} ItemsAre(text: string, p: nat)
    requires p <= |text| && Items(text, p).Ok?
    ensures Items(text, p).value != []
    ensures IsItems(text, p, Items(text, p).pos, Items(text, p).value)
    decreases |text| - p, 3
  {
    hide Value, SkipWs, Padded;
    var r, v := Items(text, p), Value(text, p);
    var c := SkipWs(text, v.pos);
    PaddedIs(text, p);
    if text[c] == ',' {
      ItemsAre(text, c + 1);
      assert r.value[1..] == Items(text, c + 1).value;
    }
    assert Padded(text, p, c, r.value[0]);
  }

  lemma KeyIs(text: string, p: nat)
    requires p <= |text| && Key(text, p).Ok?
    ensures IsKey(text, p, Key(text, p).pos, Key(text, p).value)
  {
    hide Body, CString, IsString, White;
    var a := SkipWs(text, p);
    var e := Body(text, a + 1).pos;
    SkipIsWhite(text, p);
    SkipIsWhite(text, e);
    StringIff(text, a, e, Key(text, p).value);
  }

  lemma {:induction false} MembersAre(text: string, p: nat)
    requires p <= |text| && Members(text, p).Ok?
    ensures Members(text, p).value != []
    ensures IsMembers(text, p, Members(text, p).pos, Members(text, p).value)
    decreases |text| - p, 3
  {
    hide Value, Key, SkipWs, Padded, IsKey;
    var r := Members(text, p);
    var m := Key(text, p).pos;
    var c := SkipWs(text, Member(text, p).pos);
    KeyIs(text, p);
    PaddedIs(text, m);
    if text[c] == ',' {
      MembersAre(text, c + 1);
      assert r.value[1..] == Members(text, c + 1).value;
    }
    assert IsKey(text, p, m, r.value[0].0) && Padded(text, m, c, r.value[0].1);
  }

  // ---- What is of the language is read ----

  /** A value does not start with white space or with a closer. */
  lemma ValueStarts(text: string, p: nat, q: nat, v: Json)
    requires IsValue(text, p, q, v)
    ensures p < q <= |text| && !IsWs(text[p]) && text[p] != ']' && text[p] != '}'
    ensures v.String? ==> text[p] == '"'
  {
    hide Strtod, IsItems, IsMembers, White;
    if v.Null? || v.Bool? {
      assert text[p] == text[p..q][0];
    }
  }

  lemma LiteralReadsIt(text: string, p: nat, q: nat, v: Json)
    requires IsValue(text, p, q, v) && (v.Null? || v.Bool?)
    ensures ValueAt(text, p) == Ok(v, q)
  {
    hide Items, Members, Body, Strtod;
    var word := text[p..q];
    assert text[p..][..q - p] == word && text[p] == word[0];
    assert text[p..][0] == word[0];
  }

  lemma {:induction false} ValueReadsIt(text: string, p: nat, q: nat, v: Json)
    requires IsValue(text, p, q, v)
    ensures ValueAt(text, p) == Ok(v, q)
    decreases v, 1
  {
    hide Items, Members, Body, Strtod, Literal, White, IsString, IsItems, IsMembers, SkipWs;
    ValueStarts(text, p, q, v);
    match v
    case Null => LiteralReadsIt(text, p, q, v);
    case Bool(_) => LiteralReadsIt(text, p, q, v);
    case Number(n) =>
    case String(s) => StringIff(text, p, q, s);
    case Array(items) =>
      if items == [] {
        WhiteIsSkipped(text, p + 1, q - 1);
      } else {
        ItemsReadThem(text, p + 1, q, items);
      }
    case Object(members) =>
      if members == [] {
        WhiteIsSkipped(text, p + 1, q - 1);
      } else {
        MembersReadThem(text, p + 1, q, members);
      }
  }

  lemma {:induction false} PaddedReadsIt(text: string, p: nat, c: nat, v: Json)
    requires Padded(text, p, c, v) && (c < |text| ==> !IsWs(text[c]))
    ensures p <= c <= |text| && Value(text, p).Ok? && Value(text, p).value == v && SkipWs(text, Value(text, p).pos) == c
    ensures At(text, SkipWs(text, p)) != ']' && At(text, SkipWs(text, p)) != '}'
    decreases v, 2
  {
    hide ValueAt, IsValue, SkipWs;
    var a: nat, e: nat :| White(text, p, a) && IsValue(text, a, e, v) && White(text, e, c);
    ValueStarts(text, a, e, v);
    WhiteIsSkipped(text, p, a);
    WhiteIsSkipped(text, e, c);
    ValueReadsIt(text, a, e, v);
  }

  lemma {:induction false} ItemsReadThem(text: string, p: nat, q: nat, items: seq<Json>)
    requires items != [] && IsItems(text, p, q, items)
    ensures p <= |text| && Items(text, p) == Ok(items, q) && At(text, SkipWs(text, p)) != ']'
    decreases items, 0
  {
    hide Value, SkipWs, Padded;
    var c: nat :| && Padded(text, p, c, items[0]) && c < |text|
                  && if |items| == 1 then text[c] == ']' && q == c + 1
                     else text[c] == ',' && IsItems(text, c + 1, q, items[1..]);
    PaddedReadsIt(text, p, c, items[0]);
    if |items| == 1 {
      assert items == [items[0]];
    } else {
      ItemsReadThem(text, c + 1, q, items[1..]);
      assert items == [items[0]] + items[1..];
    }
  }

  lemma KeyReadsIt(text: string, p: nat, q: nat, name: string)
    requires IsKey(text, p, q, name)
    ensures p <= q <= |text| && Key(text, p) == Ok(name, q) && At(text, SkipWs(text, p)) == '"'
  {
    hide Body, CString, IsBody;
    var a: nat, e: nat, c: nat :|
      White(text, p, a) && IsString(text, a, e, name) && White(text, e, c) && c < |text| && text[c] == ':' && q == c + 1;
    WhiteIsSkipped(text, p, a);
    StringIff(text, a, e, name);
    WhiteIsSkipped(text, e, c);
  }

  lemma {:induction false} MembersReadThem(text: string, p: nat, q: nat, members: seq<(string, Json)>)
    requires members != [] && IsMembers(text, p, q, members)
    ensures p <= |text| && Members(text, p) == Ok(members, q) && At(text, SkipWs(text, p)) != '}'
    decreases members, 0
  {
    hide Value, Key, SkipWs, Padded, IsKey;
    var m: nat, c: nat :|
      && IsKey(text, p, m, members[0].0) && Padded(text, m, c, members[0].1) && c < |text|
      && if |members| == 1 then text[c] == '}' && q == c + 1
         else text[c] == ',' && IsMembers(text, c + 1, q, members[1..]);
    KeyReadsIt(text, p, m, members[0].0);
    assert members[0].1 < members[0];
    PaddedReadsIt(text, m, c, members[0].1);
    assert Member(text, p).Ok? && Member(text, p).value == members[0];
    if |members| == 1 {
      assert members == [members[0]];
    } else {
      MembersReadThem(text, c + 1, q, members[1..]);
      assert members == [members[0]] + members[1..];
    }
  }

  /** The reader accepts a text as this value if and only if the text is the value with white space
      around it and nothing else. */
  lemma DocumentIff(text: string, j: Json)
    ensures Document(text) == Ok(j, |text|) <==> Padded(text, 0, |text|, j)
    ensures Document(text).Ok? ==> Document(text).pos == |text|
  {
    hide Value, SkipWs, Padded;
    if Document(text).Ok? {
      PaddedIs(text, 0);
    }
    if Padded(text, 0, |text|, j) {
      PaddedReadsIt(text, 0, |text|, j);
    }
  }

  /** A text that keeps the cursor inside, and that the source alone decides, is refused if and only
      if it is no value with white space around it. */
  lemma RefusedIff(text: string)
    requires Value(text, 0).Settled()
    ensures Document(text) == Bad <==> forall j :: !Padded(text, 0, |text|, j)
    ensures forall j :: Document(text) == Ok(j, |text|) <==> Padded(text, 0, |text|, j)
  {
    hide Value, SkipWs, Padded;
    forall j ensures Document(text) == Ok(j, |text|) <==> Padded(text, 0, |text|, j) {
      DocumentIff(text, j);
    }
    if Document(text).Ok? {
      DocumentIff(text, Document(text).value);
    }
  }
}
