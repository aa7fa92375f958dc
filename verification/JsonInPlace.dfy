/** json_parse() as it runs: one cursor over a NUL-terminated buffer that the parser rewrites
    as it goes, with every string of the resulting tree a pointer into that buffer. */
module JsonInPlace {
  import opened Options
  import opened JsonValues
  import opened JsonText

  /** struct json_value; a string or a key is the buffer index at which it starts. */
  datatype Node =
    | NNull
    | NBool(b: bool)
    | NNumber(n: real)
    | NString(ptr: nat)
    | NArray(items: seq<Node>)
    | NObject(members: seq<(nat, Node)>)

  /** The string that a pointer denotes: what the buffer holds up to the next NUL. */
  function StringAt(buf: seq<char>, ptr: nat): string
  {
    if ptr < |buf| then CString(buf[ptr..]) else []
  }

  /** The value that a tree denotes, read through a buffer. */
  function Read(buf: seq<char>, v: Node): Json
  {
    match v
    case NNull => Null
    case NBool(b) => Bool(b)
    case NNumber(n) => Number(n)
    case NString(ptr) => String(StringAt(buf, ptr))
    case NArray(items) => Array(seq(|items|, i requires 0 <= i < |items| => Read(buf, items[i])))
    case NObject(members) =>
      Object(seq(|members|, i requires 0 <= i < |members| =>
        (StringAt(buf, members[i].0), Read(buf, members[i].1))))
  }

  /** A string that starts in buf[lo..hi] and whose NUL terminator lies there too. */
  ghost predicate StringWithin(buf: seq<char>, ptr: nat, lo: nat, hi: nat)
  {
    lo <= ptr && exists e :: ptr <= e < hi <= |buf| && buf[e] == NUL
  }

  /** All strings of the tree lie within buf[lo..hi]. */
  ghost predicate Within(buf: seq<char>, v: Node, lo: nat, hi: nat)
  {
    match v
    case NString(ptr) => StringWithin(buf, ptr, lo, hi)
    case NArray(items) => forall i :: 0 <= i < |items| ==> Within(buf, items[i], lo, hi)
    case NObject(members) =>
      forall i :: 0 <= i < |members| ==>
        StringWithin(buf, members[i].0, lo, hi) && Within(buf, members[i].1, lo, hi)
    case _ => true
  }

  // ---- Strings are safe from later writes ----

  lemma {:induction false} CStringStops(s: string, t: string, e: nat)
    requires e < |s| && e < |t| && s[e] == NUL && s[..e + 1] == t[..e + 1]
    ensures CString(s) == CString(t)
    decreases e
  {
    assert s[0] == s[..e + 1][0] == t[..e + 1][0] == t[0];
    if s[0] != NUL {
      assert s[1..][..e] == s[..e + 1][1..] == t[..e + 1][1..] == t[1..][..e];
      CStringStops(s[1..], t[1..], e - 1);
    }
  }

  lemma StringKept(buf: seq<char>, buf': seq<char>, ptr: nat, lo: nat, hi: nat, lo': nat, hi': nat)
    requires StringWithin(buf, ptr, lo, hi) && hi <= |buf'| && buf'[lo..hi] == buf[lo..hi]
    requires lo' <= lo && hi <= hi' <= |buf'|
    ensures StringWithin(buf', ptr, lo', hi') && StringAt(buf', ptr) == StringAt(buf, ptr)
  {
    var e :| ptr <= e < hi && buf[e] == NUL;
    assert forall i :: lo <= i < hi ==> buf'[i] == buf'[lo..hi][i - lo] == buf[lo..hi][i - lo] == buf[i];
    assert buf[ptr..][..e - ptr + 1] == buf'[ptr..][..e - ptr + 1];
    CStringStops(buf[ptr..], buf'[ptr..], e - ptr);
  }

  /** Writes outside the stretch that holds its strings do not change what a tree denotes. */
  lemma {:induction false} TreeKept(buf: seq<char>, buf': seq<char>, v: Node, lo: nat, hi: nat, lo': nat, hi': nat)
    requires Within(buf, v, lo, hi) && lo <= hi <= |buf| && hi <= |buf'| && buf'[lo..hi] == buf[lo..hi]
    requires lo' <= lo && hi <= hi' <= |buf'|
    ensures Within(buf', v, lo', hi') && Read(buf', v) == Read(buf, v)
    decreases v
  {
    match v
    case NString(ptr) => StringKept(buf, buf', ptr, lo, hi, lo', hi');
    case NArray(items) =>
      forall i | 0 <= i < |items|
        ensures Within(buf', items[i], lo', hi') && Read(buf', items[i]) == Read(buf, items[i])
      {
        TreeKept(buf, buf', items[i], lo, hi, lo', hi');
      }
    case NObject(members) =>
      forall i | 0 <= i < |members|
        ensures StringWithin(buf', members[i].0, lo', hi') && Within(buf', members[i].1, lo', hi')
        ensures StringAt(buf', members[i].0) == StringAt(buf, members[i].0)
        ensures Read(buf', members[i].1) == Read(buf, members[i].1)
      {
        StringKept(buf, buf', members[i].0, lo, hi, lo', hi');
        TreeKept(buf, buf', members[i].1, lo, hi, lo', hi');
      }
    case _ =>
  }

  // ---- The parser ----

  lemma {:induction false} CStringOf(s: string, rest: string)
    ensures CString(s + [NUL] + rest) == CString(s)
    ensures NUL !in s ==> CString(s) == s
  {
    if s != [] {
      CStringOf(s[1..], rest);
      assert (s + [NUL] + rest)[1..] == s[1..] + [NUL] + rest;
    }
  }

  lemma PrefixedMore(done: string, c: char, r: Parse<string>)
    ensures Prefixed(done, Prefixed([c], r)) == Prefixed(done + [c], r)
    ensures Prefixed("", r) == r
  {
    if r.Ok? {
      assert done + ([c] + r.value) == (done + [c]) + r.value;
      assert "" + r.value == r.value;
    }
  }

  function After<T>(done: seq<T>, r: Parse<seq<T>>): Parse<seq<T>>
  {
    if r.Ok? then Ok(done + r.value, r.pos) else r
  }

  lemma AfterMore<T>(done: seq<T>, v: T, r: Parse<seq<T>>)
    ensures After(done, After([v], r)) == After(done + [v], r)
    ensures After([], r) == r
  {
    if r.Ok? {
      assert done + ([v] + r.value) == (done + [v]) + r.value;
      assert [] + r.value == r.value;
    }
  }

  /** The tree lies within buf[lo..hi] and denotes this value. */
  ghost predicate ReadsAs(buf: seq<char>, v: Node, lo: nat, hi: nat, j: Json)
  {
    Within(buf, v, lo, hi) && Read(buf, v) == j
  }

  lemma ReadsLater(buf: seq<char>, buf': seq<char>, v: Node, lo: nat, hi: nat, hi': nat, j: Json)
    requires ReadsAs(buf, v, lo, hi, j) && lo <= hi <= |buf| && hi <= hi' <= |buf'| && buf'[..hi] == buf[..hi]
    ensures ReadsAs(buf', v, lo, hi', j)
  {
    assert buf'[lo..hi] == buf'[..hi][lo..] == buf[..hi][lo..] == buf[lo..hi];
    TreeKept(buf, buf', v, lo, hi, lo, hi');
  }

  lemma ReadsItem(buf: seq<char>, items: seq<Node>, v: Node, lo: nat, mid: nat, hi: nat, done: seq<Json>, j: Json)
    requires ReadsAs(buf, NArray(items), lo, hi, Array(done)) && ReadsAs(buf, v, mid, hi, j)
    requires lo <= mid <= hi <= |buf|
    ensures ReadsAs(buf, NArray(items + [v]), lo, hi, Array(done + [j]))
  {
    TreeKept(buf, buf, v, mid, hi, lo, hi);
    assert Read(buf, NArray(items + [v])).items == Read(buf, NArray(items)).items + [Read(buf, v)];
  }

  lemma ReadsMember(buf: seq<char>, members: seq<(nat, Node)>, key: nat, v: Node, lo: nat, mid: nat, hi: nat,
                    done: seq<(string, Json)>, name: string, j: Json)
    requires ReadsAs(buf, NObject(members), lo, hi, Object(done)) && ReadsAs(buf, v, mid, hi, j)
    requires StringWithin(buf, key, lo, hi) && StringAt(buf, key) == name
    requires lo <= mid <= hi <= |buf|
    ensures ReadsAs(buf, NObject(members + [(key, v)]), lo, hi, Object(done + [(name, j)]))
  {
    TreeKept(buf, buf, v, mid, hi, lo, hi);
    assert Read(buf, NObject(members + [(key, v)])).members
        == Read(buf, NObject(members)).members + [(StringAt(buf, key), Read(buf, v))];
  }

  /** A member joins an object: its key was read first, then its value. */
  lemma MemberRead(buf0: seq<char>, buf1: seq<char>, buf2: seq<char>, members: seq<(nat, Node)>, key: nat, v: Node,
                   start: nat, from: nat, mid: nat, at: nat, end: nat,
                   done: seq<(string, Json)>, name: string, j: Json)
    requires start <= from <= mid <= at <= end <= |buf2| == |buf1| == |buf0|
    requires ReadsAs(buf0, NObject(members), start, from, Object(done)) && buf1[..from] == buf0[..from]
    requires StringWithin(buf1, key, from, mid) && StringAt(buf1, key) == name && buf2[..at] == buf1[..at]
    requires ReadsAs(buf2, v, at, end, j)
    ensures ReadsAs(buf2, NObject(members + [(key, v)]), start, end, Object(done + [(name, j)]))
    ensures buf2[..start] == buf0[..start]
  {
    assert buf2[..from] == buf2[..at][..from] == buf1[..at][..from] == buf1[..from];
    ReadsLater(buf0, buf2, NObject(members), start, from, end, Object(done));
    assert buf2[from..mid] == buf2[..at][from..mid] == buf1[..at][from..mid] == buf1[from..mid];
    StringKept(buf1, buf2, key, from, mid, start, end);
    ReadsMember(buf2, members, key, v, start, at, end, done, name, j);
    assert buf2[..start] == buf2[..from][..start] == buf0[..from][..start] == buf0[..start];
  }

  /** What is left to read of an array, after its bracket and white space; */
  lemma ArrayAt(text: string, p: nat)
    requires p < |text| && text[p] == '['
    ensures var q := SkipWs(text, p + 1);
      if At(text, q) == ']' then ValueAt(text, p) == Ok(Array([]), q + 1)
      else
        var r := Items(text, q);
        && ValueAt(text, p).Settled() == r.Settled() && ValueAt(text, p).Bad? == r.Bad?
        && (r.Ok? ==> ValueAt(text, p) == Ok(Array(r.value), r.pos))
  {
    hide Members, Body, Strtod, Literal, Value, SkipWs;
    ItemsSkip(text, p + 1);
  }

  /** and of an object, after its brace. */
  lemma ObjectAt(text: string, p: nat)
    requires p < |text| && text[p] == '{'
    ensures var q := SkipWs(text, p + 1);
      if At(text, q) == '}' then ValueAt(text, p) == Ok(Object([]), q + 1)
      else
        var r := Members(text, q);
        && ValueAt(text, p).Settled() == r.Settled() && ValueAt(text, p).Bad? == r.Bad?
        && (r.Ok? ==> ValueAt(text, p) == Ok(Object(r.value), r.pos))
  {
    hide Items, Body, Strtod, Literal, Key, Value, SkipWs;
    MembersSkip(text, p + 1);
  }

  class Parser {
    const buf: array<char>
    var p: nat
    var failed: bool

    constructor (buf: array<char>)
      ensures this.buf == buf && p == 0 && !failed
    {
      this.buf, p, failed := buf, 0, false;
    }

    /** From the cursor on, the buffer still holds the text, up to its terminator. */
    ghost predicate Unread(text: string)
      reads this, buf
    {
      && NUL !in text
      && p <= |text| < buf.Length
      && (forall i :: p <= i < |text| ==> buf[i] == text[i])
      && buf[|text|] == NUL
    }

    /** *ps->p. */
    function Peek(): char
      requires p < buf.Length
      reads this, buf
    {
      buf[p]
    }

    /** The C string at the cursor, as strtod() and strncmp() see it. */
    method Rest(ghost text: string) returns (rest: string)
      requires Unread(text)
      ensures rest == text[p..]
    {
      rest := CString(buf[p..]);
      var tail := buf[|text| + 1..];
      assert buf[p..] == text[p..] + [NUL] + tail;
      CStringOf(text[p..], tail);
    }

    method SkipWhite(ghost text: string)
      requires Unread(text)
      modifies this`p
      ensures Unread(text) && p == SkipWs(text, old(p))
    {
      while IsWs(Peek())
        invariant Unread(text) && SkipWs(text, p) == SkipWs(text, old(p))
        decreases |text| - p
      {
        p := p + 1;
      }
    }

    /** Decodes an escape, leaving the cursor on its last character. */
    method ReadEscape(ghost text: string) returns (c: char)
      requires Unread(text) && !failed && Escape(text, p).Settled()
      modifies this`p, this`failed
      ensures failed <==> Escape(text, old(p)).Bad?
      ensures !failed ==> p < |text| && Unread(text) && Escape(text, old(p)) == Ok(c, p + 1)
    {
      c := Peek();
      match c {
        case '"' =>
        case '\\' =>
        case '/' =>
        case 'n' => c := '\n';
        case 't' => c := '\t';
        case 'r' => c := '\r';
        case 'u' =>
          var rest := Rest(text);
          assert rest[1..] == text[p + 1..];
          var scan := Scan4x(rest[1..]);
          if scan.Match? {
            c := Narrowed(scan.cp);
            p := p + 4;
          } else {
            failed := true;
          }
        case _ => failed := true;
      }
    }

    /** Reads one character of a string body, escaped or not, and moves past it. */
    method ReadChar(ghost text: string) returns (c: char)
      requires Unread(text) && !failed && buf[p] != '"' && Body(text, p).Settled()
      modifies this`p, this`failed
      ensures failed ==> Body(text, old(p)).Bad?
      ensures !failed ==> old(p) < p && Unread(text) && Body(text, old(p)) == Prefixed([c], Body(text, p))
    {
      c := Peek();
      if c == NUL {
        failed := true;
      } else if c == '\\' {
        p := p + 1;
        c := ReadEscape(text);
        if !failed {
          p := p + 1;
        }
      } else {
        p := p + 1;
      }
    }

    /** Unescapes a string body in place. The write position never passes the cursor, so no
        character is overwritten before it has been read. */
    method ParseStringBody(ghost text: string) returns (start: nat)
      requires Unread(text) && !failed && Body(text, p).Settled()
      modifies this, buf
      ensures failed <==> Body(text, old(p)).Bad?
      ensures !failed ==>
        && Unread(text) && p == Body(text, old(p)).pos
        && buf[..old(p)] == old(buf[..p])
        && StringWithin(buf[..], start, old(p), p)
        && StringAt(buf[..], start) == CString(Body(text, old(p)).value)
    {
      start := p;
      var out := p;
      ghost var done := "";
      PrefixedMore("", ' ', Body(text, p));
      while Peek() != '"'
        invariant Unread(text) && !failed && start <= out <= p
        invariant buf[..start] == old(buf[..p]) && buf[start..out] == done
        invariant Body(text, start) == Prefixed(done, Body(text, p))
        decreases |text| - p
      {
        var c := ReadChar(text);
        if failed {
          return;
        }
        PrefixedMore(done, c, Body(text, p));
        buf[out] := c;
        out := out + 1;
        done := done + [c];
      }
      assert Body(text, p) == Ok("", p + 1) && done + "" == done;
      CloseString(start, out, done, text);
    }

    /** Terminates the unescaped string, on its closing quote at the latest, and moves past it. */
    method CloseString(start: nat, out: nat, ghost done: string, ghost text: string)
      requires Unread(text) && p < |text| && start <= out <= p && buf[start..out] == done
      modifies this`p, buf
      ensures Unread(text) && p == old(p) + 1 && buf[..start] == old(buf[..start])
      ensures StringWithin(buf[..], start, start, p) && StringAt(buf[..], start) == CString(done)
    {
      buf[out] := NUL;
      p := p + 1;
      assert buf[start..out] == done;
      assert buf[start..] == done + [NUL] + buf[out + 1..];
      CStringOf(done, buf[out + 1..]);
      assert buf[..][start..] == buf[start..];
      assert buf[..][out] == NUL;
    }

    // ---- Values ----

    method ParseNumber(ghost text: string) returns (v: Node)
      requires Unread(text) && !failed && Strtod(text[p..]).Settled()
      modifies this`p, this`failed
      ensures var r := Strtod(text[old(p)..]);
        && (failed <==> r.Bad?)
        && (!failed ==> p == old(p) + r.pos && Unread(text) && v == NNumber(r.value))
    {
      var rest := Rest(text);
      var r := Strtod(rest);
      if r.Ok? {
        p, v := p + r.pos, NNumber(r.value);
      } else {
        failed, v := true, NNull;
      }
    }

    method ParseLiteral(ghost text: string) returns (v: Node)
      requires Unread(text) && !failed
      modifies this`p, this`failed
      ensures var r := Literal(text, old(p));
        && (failed <==> r.Bad?)
        && (!failed ==> p == r.pos && Unread(text) && ReadsAs(buf[..], v, old(p), p, r.value))
    {
      v := NNull;
      var rest := Rest(text);
      if "true" <= rest {
        p, v := p + 4, NBool(true);
      } else if "false" <= rest {
        p, v := p + 5, NBool(false);
      } else if "null" <= rest {
        p := p + 4;
      } else {
        failed := true;
      }
    }

    /** Parses one value. What it yields, read through the buffer as it now is, is what the text
        denotes; nothing before the value or after it has been written. */
    method ParseValue(ghost text: string) returns (v: Node)
      requires Unread(text) && !failed && Value(text, p).Settled()
      modifies this, buf
      ensures failed <==> Value(text, old(p)).Bad?
      ensures !failed ==>
        && Unread(text) && p == Value(text, old(p)).pos
        && buf[..old(p)] == old(buf[..p])
        && ReadsAs(buf[..], v, old(p), p, Value(text, old(p)).value)
      decreases |text| - p, 4
    {
      ghost var start, before := p, buf[..];
      SkipWhite(text);
      ghost var q := p;
      v := ParseValueAt(text);
      if !failed {
        assert buf[..start] == buf[..q][..start] == before[..q][..start] == before[..start];
        TreeKept(buf[..], buf[..], v, q, p, start, p);
      }
    }

    method ParseValueAt(ghost text: string) returns (v: Node)
      requires Unread(text) && !failed && ValueAt(text, p).Settled()
      modifies this, buf
      ensures failed <==> ValueAt(text, old(p)).Bad?
      ensures !failed ==>
        && Unread(text) && p == ValueAt(text, old(p)).pos
        && buf[..old(p)] == old(buf[..p])
        && ReadsAs(buf[..], v, old(p), p, ValueAt(text, old(p)).value)
      decreases |text| - p, 3
    {
      var c := Peek();
      if c == '{' {
        v := ParseObject(text);
      } else if c == '[' {
        v := ParseArray(text);
      } else if c == '"' {
        v := ParseString(text);
      } else if c == 't' || c == 'f' || c == 'n' {
        v := ParseLiteral(text);
      } else if c == '-' || IsDigit(c) {
        v := ParseNumber(text);
      } else {
        failed, v := true, NNull;
      }
    }

    method ParseString(ghost text: string) returns (v: Node)
      requires Unread(text) && !failed && buf[p] == '"' && ValueAt(text, p).Settled()
      modifies this, buf
      ensures failed <==> ValueAt(text, old(p)).Bad?
      ensures !failed ==>
        && Unread(text) && p == ValueAt(text, old(p)).pos
        && buf[..old(p)] == old(buf[..p])
        && ReadsAs(buf[..], v, old(p), p, ValueAt(text, old(p)).value)
    {
      ghost var start, before := p, buf[..];
      p := p + 1;
      var s := ParseStringBody(text);
      v := NString(s);
      if !failed {
        assert buf[..start] == buf[..start + 1][..start] == before[..start + 1][..start] == before[..start];
      }
    }

    /** One item of an array, and the white space around it. */
    method ParseItem(ghost text: string, items: seq<Node>, ghost start: nat, ghost done: seq<Json>)
      returns (items': seq<Node>)
      requires Unread(text) && !failed && Value(text, p).Settled() && start <= p
      requires ReadsAs(buf[..], NArray(items), start, p, Array(done))
      modifies this, buf
      ensures failed <==> Value(text, old(p)).Bad?
      ensures !failed ==>
        && Unread(text) && p == SkipWs(text, Value(text, old(p)).pos)
        && buf[..start] == old(buf[..start])
        && ReadsAs(buf[..], NArray(items'), start, p, Array(done + [Value(text, old(p)).value]))
      decreases |text| - p, 5
    {
      ghost var from, before := p, buf[..];
      var item := ParseValue(text);
      items' := items + [item];
      if !failed {
        assert buf[..from] == before[..from];
        assert buf[..start] == buf[..from][..start] == before[..from][..start] == before[..start];
        ReadsLater(before, buf[..], NArray(items), start, from, p, Array(done));
        ReadsItem(buf[..], items, item, start, from, p, done, Value(text, from).value);
        ghost var end := p;
        SkipWhite(text);
        ReadsLater(buf[..], buf[..], NArray(items'), start, end, p, Array(done + [Value(text, from).value]));
      }
    }

    method ParseArray(ghost text: string) returns (v: Node)
      requires Unread(text) && !failed && buf[p] == '[' && ValueAt(text, p).Settled()
      modifies this, buf
      ensures failed <==> ValueAt(text, old(p)).Bad?
      ensures !failed ==>
        && Unread(text) && p == ValueAt(text, old(p)).pos
        && buf[..old(p)] == old(buf[..p])
        && ReadsAs(buf[..], v, old(p), p, ValueAt(text, old(p)).value)
      decreases |text| - p, 2
    {
      hide ValueAt, Items;
      ghost var start, before := p, buf[..];
      ArrayAt(text, p);
      p := p + 1;
      SkipWhite(text);
      v := NArray([]);
      if Peek() == ']' {
        p := p + 1;
        return;
      }
      ghost var from := p;
      v := ParseItems(text, start);
      if !failed {
        assert buf[..start] == buf[..from][..start] == before[..from][..start] == before[..start];
      }
    }

    /** One round of the loop in parse_array(): an item and the comma or bracket after it. */
    method NextItem(ghost text: string, items: seq<Node>, ghost start: nat, ghost done: seq<Json>)
      returns (items': seq<Node>, more: bool, ghost j: Json)
      requires Unread(text) && !failed && start <= p && Items(text, p).Settled()
      requires ReadsAs(buf[..], NArray(items), start, p, Array(done))
      modifies this, buf
      ensures failed ==> Items(text, old(p)).Bad?
      ensures !failed ==>
        && Unread(text) && old(p) < p && buf[..start] == old(buf[..start])
        && ReadsAs(buf[..], NArray(items'), start, p, Array(done + [j]))
        && Items(text, old(p)) == if more then After([j], Items(text, p)) else Ok([j], p)
      decreases |text| - p, 6
    {
      hide ValueAt, Members;
      more := false;
      j := if Value(text, p).Ok? then Value(text, p).value else Null;
      items' := ParseItem(text, items, start, done);
      if failed {
        return;
      }
      var c := Peek();
      if c != ',' && c != ']' {
        failed := true;
        return;
      }
      more := c == ',';
      p := p + 1;
      ReadsLater(buf[..], buf[..], NArray(items'), start, p - 1, p, Array(done + [j]));
    }

    /** The loop of parse_array(), from its first round on. */
    method ParseItems(ghost text: string, ghost start: nat) returns (v: Node)
      requires Unread(text) && !failed && start <= p && Items(text, p).Settled()
      modifies this, buf
      ensures failed <==> Items(text, old(p)).Bad?
      ensures !failed ==>
        && Unread(text) && p == Items(text, old(p)).pos
        && buf[..start] == old(buf[..start])
        && ReadsAs(buf[..], v, start, p, Array(Items(text, old(p)).value))
      decreases |text| - p, 7
    {
      var items: seq<Node>, more := [], true;
      ghost var done: seq<Json>, j := [], Null;
      v := NArray([]);
      AfterMore([], j, Items(text, p));
      while more
        invariant Unread(text) && !failed && old(p) <= p
        invariant buf[..start] == old(buf[..start])
        invariant ReadsAs(buf[..], NArray(items), start, p, Array(done))
        invariant Items(text, old(p)) == if more then After(done, Items(text, p)) else Ok(done, p)
        decreases |text| - p, more
      {
        items, more, j := NextItem(text, items, start, done);
        if failed {
          return;
        }
        AfterMore(done, j, Items(text, p));
        done := done + [j];
      }
      v := NArray(items);
    }

    method ParseKey(ghost text: string) returns (key: nat)
      requires Unread(text) && !failed && Key(text, p).Settled()
      modifies this, buf
      ensures failed <==> Key(text, old(p)).Bad?
      ensures !failed ==>
        && Unread(text) && p == Key(text, old(p)).pos
        && buf[..old(p)] == old(buf[..p])
        && StringWithin(buf[..], key, old(p), p)
        && StringAt(buf[..], key) == Key(text, old(p)).value
    {
      hide Body, CString, StringWithin, StringAt, SkipWs;
      ghost var start, before := p, buf[..];
      key := 0;
      SkipWhite(text);
      if Peek() != '"' {
        failed := true;
        return;
      }
      p := p + 1;
      ghost var from := p;
      key := ParseStringBody(text);
      if failed {
        return;
      }
      assert buf[..start] == buf[..from][..start] == before[..from][..start] == before[..start];
      ghost var end := p;
      SkipWhite(text);
      if Peek() != ':' {
        failed := true;
        return;
      }
      p := p + 1;
      StringKept(buf[..], buf[..], key, from, end, start, p);
    }

    /** One member of an object, and the white space around it. */
    method ParseMember(ghost text: string, members: seq<(nat, Node)>, ghost start: nat,
                       ghost done: seq<(string, Json)>)
      returns (members': seq<(nat, Node)>)
      requires Unread(text) && !failed && Member(text, p).Settled() && start <= p
      requires ReadsAs(buf[..], NObject(members), start, p, Object(done))
      modifies this, buf
      ensures failed <==> Member(text, old(p)).Bad?
      ensures !failed ==>
        && Unread(text) && p == SkipWs(text, Member(text, old(p)).pos)
        && buf[..start] == old(buf[..start])
        && ReadsAs(buf[..], NObject(members'), start, p, Object(done + [Member(text, old(p)).value]))
      decreases |text| - p, 5
    {
      ghost var from, before := p, buf[..];
      members' := members;
      var key := ParseKey(text);
      if failed {
        return;
      }
      ghost var mid, between := p, buf[..];
      SkipWhite(text);
      ValueSkip(text, mid);
      ghost var at := p;
      var item := ParseValue(text);
      if failed {
        return;
      }
      members' := members + [(key, item)];
      MemberRead(before, between, buf[..], members, key, item, start, from, mid, at, p, done,
                 Key(text, from).value, Value(text, mid).value);
      ghost var end := p;
      SkipWhite(text);
      ReadsLater(buf[..], buf[..], NObject(members'), start, end, p, Object(done + [Member(text, from).value]));
    }

    method ParseObject(ghost text: string) returns (v: Node)
      requires Unread(text) && !failed && buf[p] == '{' && ValueAt(text, p).Settled()
      modifies this, buf
      ensures failed <==> ValueAt(text, old(p)).Bad?
      ensures !failed ==>
        && Unread(text) && p == ValueAt(text, old(p)).pos
        && buf[..old(p)] == old(buf[..p])
        && ReadsAs(buf[..], v, old(p), p, ValueAt(text, old(p)).value)
      decreases |text| - p, 2
    {
      hide ValueAt, Members;
      ghost var start, before := p, buf[..];
      ObjectAt(text, p);
      p := p + 1;
      SkipWhite(text);
      v := NObject([]);
      if Peek() == '}' {
        p := p + 1;
        return;
      }
      ghost var from := p;
      v := ParseMembers(text, start);
      if !failed {
        assert buf[..start] == buf[..from][..start] == before[..from][..start] == before[..start];
      }
    }

    /** One round of the loop in parse_object(): a member and the comma or bracket after it. */
    method NextMember(ghost text: string, members: seq<(nat, Node)>, ghost start: nat, ghost done: seq<(string, Json)>)
      returns (members': seq<(nat, Node)>, more: bool, ghost j: (string, Json))
      requires Unread(text) && !failed && start <= p && Members(text, p).Settled()
      requires ReadsAs(buf[..], NObject(members), start, p, Object(done))
      modifies this, buf
      ensures failed ==> Members(text, old(p)).Bad?
      ensures !failed ==>
        && Unread(text) && old(p) < p && buf[..start] == old(buf[..start])
        && ReadsAs(buf[..], NObject(members'), start, p, Object(done + [j]))
        && Members(text, old(p)) == if more then After([j], Members(text, p)) else Ok([j], p)
      decreases |text| - p, 6
    {
      hide Key, Value, Body, Items;
      more := false;
      j := if Member(text, p).Ok? then Member(text, p).value else ("", Null);
      members' := ParseMember(text, members, start, done);
      if failed {
        return;
      }
      var c := Peek();
      if c != ',' && c != '}' {
        failed := true;
        return;
      }
      more := c == ',';
      p := p + 1;
      ReadsLater(buf[..], buf[..], NObject(members'), start, p - 1, p, Object(done + [j]));
    }

    /** The loop of parse_object(), from its first round on. */
    method ParseMembers(ghost text: string, ghost start: nat) returns (v: Node)
      requires Unread(text) && !failed && start <= p && Members(text, p).Settled()
      modifies this, buf
      ensures failed <==> Members(text, old(p)).Bad?
      ensures !failed ==>
        && Unread(text) && p == Members(text, old(p)).pos
        && buf[..start] == old(buf[..start])
        && ReadsAs(buf[..], v, start, p, Object(Members(text, old(p)).value))
      decreases |text| - p, 7
    {
      var members: seq<(nat, Node)>, more := [], true;
      ghost var done: seq<(string, Json)>, j := [], ("", Null);
      v := NObject([]);
      AfterMore([], j, Members(text, p));
      while more
        invariant Unread(text) && !failed && old(p) <= p
        invariant buf[..start] == old(buf[..start])
        invariant ReadsAs(buf[..], NObject(members), start, p, Object(done))
        invariant Members(text, old(p)) == if more then After(done, Members(text, p)) else Ok(done, p)
        decreases |text| - p, more
      {
        members, more, j := NextMember(text, members, start, done);
        if failed {
          return;
        }
        AfterMore(done, j, Members(text, p));
        done := done + [j];
      }
      v := NObject(members);
    }
  }

  /** json_parse(): a NULL result is None. */
  method JsonParse(buf: array<char>, ghost text: string) returns (v: Option<Node>)
    requires |text| < buf.Length && NUL !in text && buf[..|text|] == text && buf[|text|] == NUL
    requires Value(text, 0).Settled()
    modifies buf
    ensures v.None? <==> Document(text).Bad?
    ensures v.Some? ==> Document(text) == Ok(Read(buf[..], v.value), |text|)
    ensures v.Some? ==> Within(buf[..], v.value, 0, |text|)
  {
    var ps := new Parser(buf);
    assert forall i :: 0 <= i < |text| ==> buf[i] == buf[..|text|][i] == text[i];
    var root := ps.ParseValue(text);
    if ps.failed {
      return None;
    }
    ghost var end := ps.p;
    ps.SkipWhite(text);
    if ps.Peek() != NUL {
      return None;
    }
    ReadsLater(buf[..], buf[..], root, 0, end, |text|, Value(text, 0).value);
    v := Some(root);
  }
}
