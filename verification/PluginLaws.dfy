/** What loading comes to: which stages are registered, when it fails, and which libraries stay
    open. */
module PluginLaws {
  import opened Options
  import opened PluginSpec

  // ---- What plugins offer ----

  /** A library of this program's version that exports an entry point. */
  predicate Usable(p: Plugin, limits: Limits)
  {
    p.Library? && p.version == Some(limits.abiVersion) && !p.exports.Nothing?
  }

  predicate Valid(d: Descriptor) { d.name.Some? && d.hasProcess }

  function ValidNames(ds: seq<Descriptor>): seq<string>
  {
    if ds == [] then [] else (if Valid(ds[0]) then [ds[0].name.value] else []) + ValidNames(ds[1..])
  }

  /** The names of the valid stages that one plugin offers, in its own order. */
  function Offers(p: Plugin, limits: Limits): seq<string>
  {
    if !Usable(p, limits) then []
    else if p.exports.Loomlet? then ValidNames(p.exports.stages)
    else if p.exports.stage.Some? then ValidNames([p.exports.stage.value])
    else []
  }

  /** Those of all plugins, in file-name order, */
  function Offered(ps: seq<Plugin>, limits: Limits): seq<string>
  {
    if ps == [] then [] else Offers(ps[0], limits) + Offered(ps[1..], limits)
  }

  function Repeated(h: nat, n: nat): (s: seq<nat>)
    ensures |s| == n
  {
    seq(n, _ => h)
  }

  /** and the libraries that they come from. */
  function Sources(ps: seq<Plugin>, limits: Limits): (s: seq<nat>)
    ensures |s| == |Offered(ps, limits)|
  {
    if ps == [] then [] else
      Repeated(if ps[0].Library? then ps[0].handle else 0, |Offers(ps[0], limits)|) + Sources(ps[1..], limits)
  }

  // ---- What is registered ----

  /** Each of these names is new when its turn comes, and finds a free slot. */
  ghost predicate AllFit(r: Registry, names: seq<string>, limits: Limits)
  {
    forall i :: 0 <= i < |names| ==> names[i] !in r.names + names[..i] && |r.names| + i < limits.maxStages
  }

  /** The first n of these stages have been registered behind those of r; the next, if there is one,
      was refused. */
  ghost predicate Takes(r: Registry, res: Result, names: seq<string>, handles: seq<nat>, n: nat, limits: Limits)
  {
    && n <= |names| == |handles|
    && res.r.names == r.names + names[..n] && res.r.handles == r.handles + handles[..n]
    && (res.ok <==> n == |names|)
    && AllFit(r, names[..n], limits)
    && (n < |names| ==> names[n] in res.r.names || |res.r.names| >= limits.maxStages)
  }

  lemma TakesNothing(r: Registry, res: Result, limits: Limits)
    requires res.ok && res.r.names == r.names && res.r.handles == r.handles
    ensures Takes(r, res, [], [], 0, limits)
  {
  }

  lemma FitMore(r: Registry, s: Registry, a: seq<string>, b: seq<string>, limits: Limits)
    requires AllFit(r, a, limits) && s.names == r.names + a && AllFit(s, b, limits)
    ensures AllFit(r, a + b, limits)
  {
    forall i | 0 <= i < |a + b|
      ensures (a + b)[i] !in r.names + (a + b)[..i] && |r.names| + i < limits.maxStages
    {
      if i < |a| {
        assert (a + b)[i] == a[i] && (a + b)[..i] == a[..i];
      } else {
        var k := i - |a|;
        assert (a + b)[i] == b[k] && (a + b)[..i] == a + b[..k];
        assert r.names + (a + b[..k]) == s.names + b[..k];
        assert b[k] !in s.names + b[..k] && |s.names| + k < limits.maxStages;
      }
    }
  }

  lemma TakesMore(r: Registry, first: Result, a: seq<string>, ha: seq<nat>, second: Result, b: seq<string>,
                  hb: seq<nat>, m: nat, limits: Limits)
    requires Takes(r, first, a, ha, |a|, limits) && Takes(first.r, second, b, hb, m, limits)
    ensures Takes(r, second, a + b, ha + hb, |a| + m, limits)
  {
    hide AllFit;
    assert a[..|a|] == a && ha[..|a|] == ha;
    FitMore(r, first.r, a, b[..m], limits);
    assert (a + b)[..|a| + m] == a + b[..m] && (ha + hb)[..|a| + m] == ha + hb[..m];
    assert r.names + (a + b[..m]) == (r.names + a) + b[..m];
    assert r.handles + (ha + hb[..m]) == (r.handles + ha) + hb[..m];
  }

  lemma TakesPart(r: Registry, first: Result, a: seq<string>, ha: seq<nat>, n: nat, b: seq<string>, hb: seq<nat>,
                  limits: Limits)
    requires Takes(r, first, a, ha, n, limits) && !first.ok && |b| == |hb|
    ensures Takes(r, first, a + b, ha + hb, n, limits)
  {
    assert (a + b)[..n] == a[..n] && (ha + hb)[..n] == ha[..n];
  }

  lemma FreeName(names: seq<string>, name: string)
    ensures Find(names, name, 0).Some? <==> name in names
  {
    FindFirst(names, name, 0);
  }

  lemma RegisteredTakes(r: Registry, h: nat, d: Descriptor, limits: Limits) returns (n: nat)
    ensures Takes(r, Registered(r, h, Some(d), limits), ValidNames([d]), Repeated(h, |ValidNames([d])|), n, limits)
  {
    var res, names := Registered(r, h, Some(d), limits), ValidNames([d]);
    assert [d][1..] == [] && ValidNames([d]) == (if Valid(d) then [d.name.value] else []) + [];
    n := if res.ok then |names| else 0;
    if Valid(d) {
      FreeName(r.names, d.name.value);
      assert names == [d.name.value] && names[..1] == names && names[..0] == [];
      assert Repeated(h, 1) == [h] && Repeated(h, 1)[..1] == [h];
      assert r.names + [] == r.names && r.handles + [] == r.handles;
    }
  }

  lemma RepeatedMore(h: nat, m: nat, n: nat)
    ensures Repeated(h, m) + Repeated(h, n) == Repeated(h, m + n)
  {
  }

  lemma ValidNamesStep(ds: seq<Descriptor>)
    requires ds != []
    ensures ValidNames(ds) == ValidNames([ds[0]]) + ValidNames(ds[1..])
  {
    assert [ds[0]][1..] == [];
  }

  lemma {:induction false} AllTakes(r: Registry, h: nat, ds: seq<Descriptor>, limits: Limits) returns (n: nat)
    ensures Takes(r, RegisteredAll(r, h, ds, limits), ValidNames(ds), Repeated(h, |ValidNames(ds)|), n, limits)
    decreases |ds|
  {
    hide Takes, Registered, Repeated;
    if ds == [] {
      NothingToTake(r, h, ds, limits);
      n := 0;
    } else {
      hide ValidNames;
      var first := Registered(r, h, Some(ds[0]), limits);
      var a, b := ValidNames([ds[0]]), ValidNames(ds[1..]);
      ValidNamesStep(ds);
      RepeatedMore(h, |a|, |b|);
      n := RegisteredTakes(r, h, ds[0], limits);
      TakesMeans(r, first, a, Repeated(h, |a|), n, limits);
      if first.ok {
        var m := AllTakes(first.r, h, ds[1..], limits);
        TakesMore(r, first, a, Repeated(h, |a|), RegisteredAll(first.r, h, ds[1..], limits), b, Repeated(h, |b|), m,
                  limits);
        n := |a| + m;
      } else {
        TakesPart(r, first, a, Repeated(h, |a|), n, b, Repeated(h, |b|), limits);
      }
    }
  }

  lemma NothingToTake(r: Registry, h: nat, ds: seq<Descriptor>, limits: Limits)
    requires ds == []
    ensures Takes(r, RegisteredAll(r, h, ds, limits), ValidNames(ds), Repeated(h, |ValidNames(ds)|), 0, limits)
  {
    TakesNothing(r, RegisteredAll(r, h, ds, limits), limits);
    assert Repeated(h, 0) == [];
  }

  lemma TakesMeans(r: Registry, res: Result, names: seq<string>, handles: seq<nat>, n: nat, limits: Limits)
    requires Takes(r, res, names, handles, n, limits)
    ensures res.ok <==> n == |names|
  {
  }

  /** A result that has the same registry and verdict takes the same. */
  lemma TakesSame(r: Registry, s: Registry, x: Result, y: Result, names: seq<string>, handles: seq<nat>, n: nat,
                  limits: Limits)
    requires Takes(s, x, names, handles, n, limits) && s.names == r.names && s.handles == r.handles
    requires y.ok == x.ok && y.r.names == x.r.names && y.r.handles == x.r.handles
    ensures Takes(r, y, names, handles, n, limits)
  {
    hide AllFit;
    FitSame(s, r, names[..n], limits);
  }

  lemma FitSame(s: Registry, r: Registry, names: seq<string>, limits: Limits)
    requires AllFit(s, names, limits) && s.names == r.names
    ensures AllFit(r, names, limits)
  {
    forall i | 0 <= i < |names|
      ensures names[i] !in r.names + names[..i] && |r.names| + i < limits.maxStages
    {
      assert names[i] !in s.names + names[..i] && |s.names| + i < limits.maxStages;
    }
  }

  lemma OneTakes(r: Registry, p: Plugin, limits: Limits) returns (n: nat)
    ensures Takes(r, LoadedOne(r, p, limits), Offers(p, limits),
                  Repeated(if p.Library? then p.handle else 0, |Offers(p, limits)|), n, limits)
  {
    hide Takes, Registered, RegisteredAll, ValidNames;
    var res, h := LoadedOne(r, p, limits), if p.Library? then p.handle else 0;
    assert Repeated(h, 0) == [];
    if !Usable(p, limits) {
      TakesNothing(r, res, limits);
      n := 0;
    } else {
      var loaded := r.(open := r.open + multiset{h});
      if p.exports.Loomlet? {
        n := AllTakes(loaded, h, p.exports.stages, limits);
        TakesSame(r, loaded, RegisteredAll(loaded, h, p.exports.stages, limits), res, Offers(p, limits),
                  Repeated(h, |Offers(p, limits)|), n, limits);
      } else if p.exports.stage.Some? {
        n := RegisteredTakes(loaded, h, p.exports.stage.value, limits);
        TakesSame(r, loaded, Registered(loaded, h, p.exports.stage, limits), res, Offers(p, limits),
                  Repeated(h, |Offers(p, limits)|), n, limits);
      } else {
        NoStage(loaded, h, limits);
        TakesNothing(r, res, limits);
        n := 0;
      }
    }
  }

  lemma NoStage(r: Registry, h: nat, limits: Limits)
    ensures Registered(r, h, None, limits) == Result(r, true)
  {
  }

  lemma {:induction false} LoadTakes(r: Registry, ps: seq<Plugin>, limits: Limits) returns (n: nat)
    ensures Takes(r, LoadedAll(r, ps, limits), Offered(ps, limits), Sources(ps, limits), n, limits)
    decreases |ps|
  {
    hide Takes, LoadedOne, Offers;
    if ps == [] {
      TakesNothing(r, LoadedAll(r, ps, limits), limits);
      n := 0;
    } else {
      var first := LoadedOne(r, ps[0], limits);
      var a, ha := Offers(ps[0], limits), Repeated(if ps[0].Library? then ps[0].handle else 0, |Offers(ps[0], limits)|);
      n := OneTakes(r, ps[0], limits);
      TakesMeans(r, first, a, ha, n, limits);
      if first.ok {
        var m := LoadTakes(first.r, ps[1..], limits);
        TakesMore(r, first, a, ha, LoadedAll(first.r, ps[1..], limits), Offered(ps[1..], limits),
                  Sources(ps[1..], limits), m, limits);
        n := |a| + m;
      } else {
        TakesPart(r, first, a, ha, n, Offered(ps[1..], limits), Sources(ps[1..], limits), limits);
      }
    }
  }

  /** Loading succeeds if and only if every valid stage that the plugins offer has a new name and a
      free slot, and then exactly these are registered, in order, each for its library. When it
      fails, those before the first misfit are. */
  lemma LoadsExactlyOffered(r: Registry, ps: seq<Plugin>, limits: Limits)
    ensures var res, names := LoadedAll(r, ps, limits), Offered(ps, limits);
      && (res.ok <==> AllFit(r, names, limits))
      && (res.ok ==> res.r.names == r.names + names && res.r.handles == r.handles + Sources(ps, limits))
      && exists n :: 0 <= n <= |names| && res.r.names == r.names + names[..n]
  {
    var names := Offered(ps, limits);
    var n := LoadTakes(r, ps, limits);
    assert names[..|names|] == names && Sources(ps, limits)[..|names|] == Sources(ps, limits);
    if n < |names| {
      assert names[n] in r.names + names[..n] || |r.names| + n >= limits.maxStages;
    }
  }

  // ---- Which libraries stay open ----

  function Kept(ps: seq<Plugin>, limits: Limits): multiset<nat>
  {
    if ps == [] then multiset{}
    else (if Usable(ps[0], limits) then multiset{ps[0].handle} else multiset{}) + Kept(ps[1..], limits)
  }

  function Rejected(ps: seq<Plugin>, limits: Limits): seq<nat>
  {
    if ps == [] then []
    else (if ps[0].Library? && !Usable(ps[0], limits) then [ps[0].handle] else []) + Rejected(ps[1..], limits)
  }

  lemma {:induction false} AllKeepsOpen(r: Registry, h: nat, ds: seq<Descriptor>, limits: Limits)
    ensures var res := RegisteredAll(r, h, ds, limits); res.r.open == r.open && res.r.closes == r.closes
    decreases |ds|
  {
    if ds != [] {
      AllKeepsOpen(Registered(r, h, Some(ds[0]), limits).r, h, ds[1..], limits);
    }
  }

  lemma OneKeepsOpen(r: Registry, p: Plugin, limits: Limits)
    ensures var res := LoadedOne(r, p, limits);
      && (res.ok ==> res.r.open == r.open + if Usable(p, limits) then multiset{p.handle} else multiset{})
      && (res.ok ==> res.r.closes == r.closes + if p.Library? && !Usable(p, limits) then [p.handle] else [])
      && (!res.ok ==> p.Library? && res.r.open == r.open && res.r.closes == r.closes + [p.handle])
  {
    hide Registered, RegisteredAll;
    if p.Library? {
      var loaded := r.(open := r.open + multiset{p.handle});
      assert loaded.open - multiset{p.handle} == r.open;
      if p.exports.Loomlet? {
        AllKeepsOpen(loaded, p.handle, p.exports.stages, limits);
      } else if p.exports.Single? {
        SingleKeepsOpen(loaded, p.handle, p.exports.stage, limits);
      }
    }
    assert r.open + multiset{} == r.open && r.closes + [] == r.closes;
  }

  lemma SingleKeepsOpen(r: Registry, h: nat, d: Option<Descriptor>, limits: Limits)
    ensures var res := Registered(r, h, d, limits); res.r.open == r.open && res.r.closes == r.closes
  {
  }

  /** After a successful load exactly the usable libraries are open once more each, also those
      without a valid stage; all others have been closed, in order. */
  lemma {:induction false} LoadKeepsOpen(r: Registry, ps: seq<Plugin>, limits: Limits)
    requires LoadedAll(r, ps, limits).ok
    ensures LoadedAll(r, ps, limits).r.open == r.open + Kept(ps, limits)
    ensures LoadedAll(r, ps, limits).r.closes == r.closes + Rejected(ps, limits)
    decreases |ps|
  {
    hide LoadedOne, Usable;
    if ps == [] {
      assert r.closes + [] == r.closes;
    } else {
      var first := LoadedOne(r, ps[0], limits);
      OneKeepsOpen(r, ps[0], limits);
      LoadKeepsOpen(first.r, ps[1..], limits);
      Together(r.closes, first.r.closes, if ps[0].Library? && !Usable(ps[0], limits) then [ps[0].handle] else [],
               Rejected(ps[1..], limits));
    }
  }

  lemma Together(a: seq<nat>, b: seq<nat>, x: seq<nat>, y: seq<nat>)
    requires b == a + x
    ensures b + y == a + (x + y)
  {
  }
}
