/** When the reader's cursor leaves its text: after a \u escape it moves four characters on
    without looking at them, so one that the end of the text cuts off takes it past the
    terminator. */
module JsonBounds {
  import opened JsonText

  /** Fewer than four characters follow the \u at p, and sscanf() matches something in them. */
  predicate CutAt(text: string, p: nat)
  {
    && p + 1 < |text| < p + 6
    && text[p] == '\\' && text[p + 1] == 'u'
    && Scan4x(text[p + 2..]).Match?
  }

  ghost predicate HasCut(text: string)
  {
    exists p: nat :: CutAt(text, p)
  }

  /** One escape overruns exactly if it is cut off. */
  lemma EscapeOverrunsIff(text: string, p: nat)
    requires p < |text| && text[p] == '\\'
    ensures Escape(text, p + 1).Overrun? <==> CutAt(text, p)
  {
  }

  lemma {:induction false} BodyOverruns(text: string, p: nat)
    requires p <= |text| && Body(text, p).Overrun?
    ensures HasCut(text)
    decreases |text| - p
  {
    if text[p] == '\\' {
      EscapeOverrunsIff(text, p);
      var r := Escape(text, p + 1);
      if r.Ok? {
        BodyOverruns(text, r.pos);
      }
    } else {
      BodyOverruns(text, p + 1);
    }
  }

  lemma {:induction false} ValueOverruns(text: string, p: nat)
    requires p <= |text| && Value(text, p).Overrun?
    ensures HasCut(text)
    decreases |text| - p, 1
  {
    ValueAtOverruns(text, SkipWs(text, p));
  }

  lemma StrtodStays(text: string)
    ensures !Strtod(text).Overrun?
  {
  }

  lemma {:induction false} ValueAtOverruns(text: string, p: nat)
    requires p <= |text| && ValueAt(text, p).Overrun?
    ensures HasCut(text)
    decreases |text| - p, 0
  {
    hide Strtod, HasCut;
    match At(text, p)
    case '{' => MembersOverrun(text, p + 1);
    case '[' => ItemsOverrun(text, p + 1);
    case '"' => BodyOverruns(text, p + 1);
    case _ => StrtodStays(text[p..]);
  }

  lemma {:induction false} ItemsOverrun(text: string, p: nat)
    requires p <= |text| && Items(text, p).Overrun?
    ensures HasCut(text)
    decreases |text| - p, 2
  {
    hide ValueAt, HasCut;
    var r := Value(text, p);
    if r.Ok? {
      ItemsOverrun(text, SkipWs(text, r.pos) + 1);
    } else {
      ValueOverruns(text, p);
    }
  }

  lemma {:induction false} MembersOverrun(text: string, p: nat)
    requires p <= |text| && Members(text, p).Overrun?
    ensures HasCut(text)
    decreases |text| - p, 2
  {
    hide Value, Key, HasCut;
    var r := Member(text, p);
    if r.Ok? {
      MembersOverrun(text, SkipWs(text, r.pos) + 1);
    } else {
      MemberOverruns(text, p);
    }
  }

  lemma {:induction false} MemberOverruns(text: string, p: nat)
    requires p <= |text| && Member(text, p).Overrun?
    ensures HasCut(text)
    decreases |text| - p, 1
  {
    hide ValueAt, HasCut;
    var r := Key(text, p);
    if r.Ok? {
      ValueOverruns(text, r.pos);
    } else {
      BodyOverruns(text, SkipWs(text, p) + 1);
    }
  }

  /** The whole document: the cursor stays inside every text without a cut escape, */
  lemma StaysInside(text: string)
    requires !HasCut(text)
    ensures !Document(text).Overrun? && !Value(text, 0).Overrun?
  {
    hide Value, HasCut;
    if Value(text, 0).Overrun? {
      ValueOverruns(text, 0);
    }
  }

  /** which a caller can make sure of by four characters after every \u. */
  lemma WholeEscapesStayInside(text: string)
    requires forall p: nat :: p + 1 < |text| && text[p] == '\\' && text[p + 1] == 'u' ==> p + 6 <= |text|
    ensures !Document(text).Overrun?
  {
    StaysInside(text);
  }

  /** No quote and no backslash. */
  predicate Bare(s: string)
  {
    forall i :: 0 <= i < |s| ==> s[i] != '"' && s[i] != '\\'
  }

  lemma {:induction false} BareThen(text: string, p: nat, q: nat)
    requires p <= q <= |text| && Bare(text[p..q])
    ensures Body(text, q).Overrun? ==> Body(text, p).Overrun?
    decreases q - p
  {
    if p < q {
      assert text[p] == text[p..q][0];
      assert text[p + 1..q] == text[p..q][1..];
      BareThen(text, p + 1, q);
    }
  }

  /** And a string that a cut escape ends does take it out: these texts, for any characters before
      the escape. */
  lemma CutStringOverruns(s: string, d: string)
    requires Bare(s) && |d| < 4 && Scan4x(d).Match?
    ensures Document(['"'] + s + ['\\', 'u'] + d).Overrun?
  {
    var text := ['"'] + s + ['\\', 'u'] + d;
    var p := 1 + |s|;
    hide Scan4x, Body;
    assert text[1..p] == s && text[p] == '\\' && text[p + 1] == 'u' && text[p + 2..] == d;
    CutBody(text, p);
    BareThen(text, 1, p);
    StringOverruns(text);
  }

  lemma StringOverruns(text: string)
    requires text != "" && text[0] == '"' && Body(text, 1).Overrun?
    ensures Document(text).Overrun?
  {
    hide Body, Members, Items;
    assert ValueAt(text, 0).Overrun?;
    assert SkipWs(text, 0) == 0;
    assert Value(text, 0) == ValueAt(text, 0);
  }

  lemma CutBody(text: string, p: nat)
    requires CutAt(text, p)
    ensures Body(text, p).Overrun?
  {
    EscapeOverrunsIff(text, p);
  }

  /** The shortest: one hex digit will do. */
  lemma OneDigitOverruns()
    ensures Document("\"\\u1").Overrun?
  {
    assert HexDigits("1", 4) == 1;
    CutStringOverruns("", "1");
    assert ['"'] + "" + ['\\', 'u'] + "1" == "\"\\u1";
  }
}
