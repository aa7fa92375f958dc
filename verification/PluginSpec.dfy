/** The stage registry that plugins fill, and the handles that it closes in the end. */
module PluginSpec {
  import opened Options
  import opened Sequences

  /** struct stage, as far as registration looks at it. */
  datatype Descriptor = Descriptor(name: Option<string>, hasProcess: bool)

  datatype Exports = Nothing | Single(stage: Option<Descriptor>) | Loomlet(stages: seq<Descriptor>)

  /** What dlopen() and dlsym() find in one file. */
  datatype Plugin = Unopenable | Library(handle: nat, version: Option<nat>, exports: Exports)

  datatype Limits = Limits(maxStages: nat, abiVersion: nat)

  /** The registry; open counts the references to each handle, closes lists the dlclose() calls. */
  datatype Registry = Registry(names: seq<string>, handles: seq<nat>, open: multiset<nat>, closes: seq<nat>)

  /** stage_registry_find(), from slot i on. */
  function Find(names: seq<string>, name: string, i: nat): (r: Option<nat>)
    requires i <= |names|
    decreases |names| - i
  {
    if i == |names| then None
    else if names[i] == name then Some(i)
    else Find(names, name, i + 1)
  }

  function Dlclose(r: Registry, h: nat): Registry
  {
    r.(open := r.open - multiset{h}, closes := r.closes + [h])
  }

  datatype Result = Result(r: Registry, ok: bool)

  /** register_stage(): an invalid descriptor is skipped; a taken name or a full registry is
      fatal. */
  function Registered(r: Registry, h: nat, d: Option<Descriptor>, limits: Limits): Result
  {
    if d.None? || d.value.name.None? || !d.value.hasProcess then Result(r, true)
    else if Find(r.names, d.value.name.value, 0).Some? || |r.names| >= limits.maxStages then Result(r, false)
    else Result(r.(names := r.names + [d.value.name.value], handles := r.handles + [h]), true)
  }

  function RegisteredAll(r: Registry, h: nat, ds: seq<Descriptor>, limits: Limits): Result
    decreases |ds|
  {
    if ds == [] then Result(r, true) else
      var first := Registered(r, h, Some(ds[0]), limits);
      if first.ok then RegisteredAll(first.r, h, ds[1..], limits) else first
  }

  /** load_one_plugin(). */
  function LoadedOne(r: Registry, p: Plugin, limits: Limits): Result
  {
    if p.Unopenable? then Result(r, true) else
      var loaded := r.(open := r.open + multiset{p.handle});
      if p.version != Some(limits.abiVersion) || p.exports.Nothing? then Result(Dlclose(loaded, p.handle), true) else
        var res := if p.exports.Single? then Registered(loaded, p.handle, p.exports.stage, limits)
                   else RegisteredAll(loaded, p.handle, p.exports.stages, limits);
        if res.ok then res else Result(Dlclose(res.r, p.handle), false)
  }

  /** plugin_loader_load(): in file-name order, up to the first fatal plugin. */
  function LoadedAll(r: Registry, ps: seq<Plugin>, limits: Limits): Result
    decreases |ps|
  {
    if ps == [] then Result(r, true) else
      var first := LoadedOne(r, ps[0], limits);
      if first.ok then LoadedAll(first.r, ps[1..], limits) else first
  }

  /** The handles that the reverse walk closes from slot i - 1 down: each unless it appears again
      nearer the end. */
  function Closing(handles: seq<nat>, i: nat): seq<nat>
    requires i <= |handles|
  {
    if i == 0 then []
    else (if handles[i - 1] in handles[i..] then [] else [handles[i - 1]]) + Closing(handles, i - 1)
  }

  function CloseAll(r: Registry, hs: seq<nat>): Registry
    decreases |hs|
  {
    if hs == [] then r else CloseAll(Dlclose(r, hs[0]), hs[1..])
  }

  function ShutDown(r: Registry): Registry
  {
    CloseAll(r, Closing(r.handles, |r.handles|)).(names := [], handles := [])
  }

  // ---- What loading keeps ----

  /** Names are pairwise distinct, and every registered handle is open, once. */
  ghost predicate Sound(r: Registry)
  {
    |r.names| == |r.handles| && Distinct(r.names) && forall h :: h in r.handles ==> r.open[h] == 1
  }

  /** Distinct files have distinct handles, none of them open yet. */
  ghost predicate FreshHandles(r: Registry, ps: seq<Plugin>)
  {
    && (forall i :: 0 <= i < |ps| && ps[i].Library? ==> ps[i].handle !in r.open)
    && (forall i, j :: 0 <= i < j < |ps| && ps[i].Library? && ps[j].Library? ==> ps[i].handle != ps[j].handle)
  }

  lemma {:induction false} FindFirst(names: seq<string>, name: string, i: nat)
    requires i <= |names|
    ensures var r := Find(names, name, i);
      && (r.None? <==> forall j :: i <= j < |names| ==> names[j] != name)
      && (r.Some? ==> i <= r.value < |names| && names[r.value] == name)
    decreases |names| - i
  {
    if i < |names| && names[i] != name {
      FindFirst(names, name, i + 1);
    }
  }

  /** In a sound registry a name has one slot, and lookup finds it. */
  lemma FindUnique(r: Registry, name: string, i: nat)
    requires Sound(r) && i < |r.names|
    ensures Find(r.names, name, 0) == Some(i) <==> r.names[i] == name
  {
    FindFirst(r.names, name, 0);
  }

  lemma RegisteredSound(r: Registry, h: nat, d: Option<Descriptor>, limits: Limits)
    requires Sound(r) && r.open[h] == 1
    ensures var res := Registered(r, h, d, limits);
      Sound(res.r) && res.r.open == r.open && res.r.closes == r.closes && r.names <= res.r.names &&
      forall x :: x in res.r.handles ==> x in r.handles || x == h
  {
    if d.Some? && d.value.name.Some? {
      FindFirst(r.names, d.value.name.value, 0);
    }
  }

  lemma {:induction false} AllSound(r: Registry, h: nat, ds: seq<Descriptor>, limits: Limits)
    requires Sound(r) && r.open[h] == 1
    ensures var res := RegisteredAll(r, h, ds, limits);
      Sound(res.r) && res.r.open == r.open && res.r.closes == r.closes && r.names <= res.r.names &&
      forall x :: x in res.r.handles ==> x in r.handles || x == h
    decreases |ds|
  {
    if ds != [] {
      RegisteredSound(r, h, Some(ds[0]), limits);
      var first := Registered(r, h, Some(ds[0]), limits);
      if first.ok {
        AllSound(first.r, h, ds[1..], limits);
      }
    }
  }

  lemma OneSound(r: Registry, p: Plugin, limits: Limits)
    requires Sound(r) && (p.Library? ==> p.handle !in r.open)
    ensures var res := LoadedOne(r, p, limits);
      && Distinct(res.r.names) && (res.ok ==> Sound(res.r))
      && forall x :: x in res.r.open ==> x in r.open || (p.Library? && x == p.handle)
  {
    if p.Library? {
      var loaded := r.(open := r.open + multiset{p.handle});
      assert Sound(loaded);
      if p.exports.Loomlet? {
        AllSound(loaded, p.handle, p.exports.stages, limits);
      } else if p.exports.Single? {
        RegisteredSound(loaded, p.handle, p.exports.stage, limits);
      }
    }
  }

  /** Whatever plugins there are, names stay distinct, even when loading fails; and when it
      succeeds every registered handle is open, once. */
  lemma {:induction false} LoadSound(r: Registry, ps: seq<Plugin>, limits: Limits)
    requires Sound(r) && FreshHandles(r, ps)
    ensures var res := LoadedAll(r, ps, limits);
      Distinct(res.r.names) && (res.ok ==> Sound(res.r))
    decreases |ps|
  {
    if ps != [] {
      OneSound(r, ps[0], limits);
      var first := LoadedOne(r, ps[0], limits);
      if first.ok {
        forall i | 0 <= i < |ps[1..]| && ps[1..][i].Library? ensures ps[1..][i].handle !in first.r.open {
          assert ps[1..][i] == ps[i + 1];
        }
        LoadSound(first.r, ps[1..], limits);
      }
    }
  }

  // ---- Shutdown ----

  /** Slot i is the last that holds this handle. */
  ghost predicate LastAt(handles: seq<nat>, i: nat, h: nat)
  {
    i < |handles| && handles[i] == h && h !in handles[i + 1..]
  }

  /** Below slot i lies the last slot of h. */
  ghost predicate LastBelow(handles: seq<nat>, i: nat, h: nat)
  {
    exists j: nat :: j < i && LastAt(handles, j, h)
  }

  /** Below slot i, the last slot of a lies above that of b. */
  ghost predicate Newer(handles: seq<nat>, i: nat, a: nat, b: nat)
  {
    exists j: nat, k: nat :: k < j < i && LastAt(handles, j, a) && LastAt(handles, k, b)
  }

  /** The walk closes a handle at its last slot, */
  lemma {:induction false} ClosingMembers(handles: seq<nat>, i: nat, h: nat)
    requires i <= |handles|
    ensures h in Closing(handles, i) <==> LastBelow(handles, i, h)
    decreases i
  {
    if i > 0 {
      ClosingMembers(handles, i - 1, h);
      assert LastAt(handles, i - 1, h) <==> h == handles[i - 1] && h !in handles[i..];
      assert LastBelow(handles, i, h) <==> LastBelow(handles, i - 1, h) || LastAt(handles, i - 1, h);
    }
  }

  /** each once, from the newest to the oldest. */
  lemma {:induction false} ClosingOrder(handles: seq<nat>, i: nat, a: nat, b: nat)
    requires i <= |handles| && a < b < |Closing(handles, i)|
    ensures Newer(handles, i, Closing(handles, i)[a], Closing(handles, i)[b])
    decreases i
  {
    hide Closing, LastAt;
    ClosingStep(handles, i);
    var rest, hs := Closing(handles, i - 1), Closing(handles, i);
    if handles[i - 1] in handles[i..] {
      ClosingOrder(handles, i - 1, a, b);
    } else {
      assert hs[b] == rest[b - 1];
      if a == 0 {
        ClosingMembers(handles, i - 1, hs[b]);
        assert LastBelow(handles, i - 1, hs[b]);
      } else {
        assert hs[a] == rest[a - 1];
        ClosingOrder(handles, i - 1, a - 1, b - 1);
      }
    }
  }

  lemma ClosingStep(handles: seq<nat>, i: nat)
    requires i <= |handles| && Closing(handles, i) != []
    ensures i > 0
    ensures var x, rest := handles[i - 1], Closing(handles, i - 1);
      && (x in handles[i..] ==> Closing(handles, i) == rest)
      && (x !in handles[i..] ==> Closing(handles, i) == [x] + rest && LastAt(handles, i - 1, x))
  {
    assert [] + Closing(handles, i - 1) == Closing(handles, i - 1);
  }

  lemma {:induction false} HasLast(handles: seq<nat>, h: nat)
    requires h in handles
    ensures LastBelow(handles, |handles|, h)
    decreases |handles|
  {
    var n := |handles| - 1;
    if handles[n] == h {
      assert LastAt(handles, n, h);
    } else {
      HasLast(handles[..n], h);
      var j: nat :| j < n && LastAt(handles[..n], j, h);
      assert handles[j + 1..] == handles[..n][j + 1..] + [handles[n]];
      assert LastAt(handles, j, h);
    }
  }

  /** Every registered handle is closed exactly once, and no other. */
  lemma ClosesEachOnce(handles: seq<nat>)
    ensures var hs := Closing(handles, |handles|);
      && Distinct(hs) && (forall h :: h in hs <==> h in handles)
      && forall a, b :: 0 <= a < b < |hs| ==> Newer(handles, |handles|, hs[a], hs[b])
  {
    var hs := Closing(handles, |handles|);
    forall h ensures h in hs <==> h in handles {
      ClosingMembers(handles, |handles|, h);
      if h in handles {
        HasLast(handles, h);
      }
    }
    forall a, b | 0 <= a < b < |hs| ensures Newer(handles, |handles|, hs[a], hs[b]) {
      ClosingOrder(handles, |handles|, a, b);
    }
    forall a, b | 0 <= a < b < |hs| ensures hs[a] != hs[b] {
      ClosingOrder(handles, |handles|, a, b);
      var j: nat, k: nat :| k < j < |handles| && LastAt(handles, j, hs[a]) && LastAt(handles, k, hs[b]);
      assert handles[j] == handles[k + 1..][j - k - 1];
    }
  }

  lemma CloseAllStep(r: Registry, h: nat, hs: seq<nat>)
    ensures CloseAll(r, [h] + hs) == CloseAll(Dlclose(r, h), hs)
  {
    assert ([h] + hs)[1..] == hs;
  }

  lemma CloseNone(r: Registry)
    ensures CloseAll(r, []) == r
  {
  }

  lemma Regroup(a: seq<nat>, b: seq<nat>, c: seq<nat>)
    ensures (a + b) + c == a + (b + c)
  {
  }

  lemma {:induction false} CloseAllLogs(r: Registry, hs: seq<nat>)
    ensures CloseAll(r, hs).closes == r.closes + hs
    decreases |hs|
  {
    if hs != [] {
      CloseAllLogs(Dlclose(r, hs[0]), hs[1..]);
      assert hs == [hs[0]] + hs[1..];
      Regroup(r.closes, [hs[0]], hs[1..]);
    }
  }

  lemma {:induction false} CloseAllOpen(r: Registry, hs: seq<nat>, h: nat)
    requires Distinct(hs)
    ensures CloseAll(r, hs).open[h] == if h in hs && r.open[h] > 0 then r.open[h] - 1 else r.open[h]
    decreases |hs|
  {
    if hs != [] {
      var r' := Dlclose(r, hs[0]);
      assert r'.open[h] == if h == hs[0] && r.open[h] > 0 then r.open[h] - 1 else r.open[h];
      assert h in hs <==> h == hs[0] || h in hs[1..];
      CloseAllOpen(r', hs[1..], h);
    }
  }

  /** After a successful load, shutdown closes every registered handle exactly once, newest
      first, each while it is open and leaving it closed; what stays open are the libraries that
      registered no stage. */
  lemma LoadThenShutdown(ps: seq<Plugin>, limits: Limits)
    requires FreshHandles(Registry([], [], multiset{}, []), ps)
    requires LoadedAll(Registry([], [], multiset{}, []), ps, limits).ok
    ensures var r := LoadedAll(Registry([], [], multiset{}, []), ps, limits).r;
      var hs := Closing(r.handles, |r.handles|);
      && ShutDown(r).closes == r.closes + hs && Distinct(hs)
      && (forall h :: h in hs <==> h in r.handles) && (forall h :: h in hs ==> r.open[h] == 1)
      && (forall a, b :: 0 <= a < b < |hs| ==> Newer(r.handles, |r.handles|, hs[a], hs[b]))
      && (forall h :: ShutDown(r).open[h] == if h in r.handles then 0 else r.open[h])
      && ShutDown(r).names == []
  {
    var r := LoadedAll(Registry([], [], multiset{}, []), ps, limits).r;
    LoadSound(Registry([], [], multiset{}, []), ps, limits);
    ClosesEachOnce(r.handles);
    var hs := Closing(r.handles, |r.handles|);
    CloseAllLogs(r, hs);
    forall h ensures ShutDown(r).open[h] == if h in r.handles then 0 else r.open[h] {
      CloseAllOpen(r, hs, h);
    }
  }
}
