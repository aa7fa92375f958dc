/** plugin_loader.c: the registry's arrays and the loops over them. */
module PluginLoader {
  import opened Options
  import opened PluginSpec

  class Loader {
    const limits: Limits
    var names: seq<string>
    var handles: seq<nat>
    var open: multiset<nat>
    var closes: seq<nat>

    constructor (limits: Limits)
      ensures this.limits == limits && View() == Registry([], [], multiset{}, [])
    {
      this.limits, names, handles, open, closes := limits, [], [], multiset{}, [];
    }

    function View(): Registry
      reads this
    {
      Registry(names, handles, open, closes)
    }

    method Dlclose(h: nat)
      modifies this`open, this`closes
      ensures View() == PluginSpec.Dlclose(old(View()), h)
    {
      open := open - multiset{h};
      closes := closes + [h];
    }

    method StageRegistryFind(name: string) returns (r: Option<nat>)
      ensures r == Find(names, name, 0)
    {
      for i := 0 to |names|
        invariant Find(names, name, 0) == Find(names, name, i)
      {
        if names[i] == name {
          return Some(i);
        }
      }
      return None;
    }

    method RegisterStage(h: nat, d: Option<Descriptor>) returns (ok: bool)
      modifies this
      ensures Result(View(), ok) == Registered(old(View()), h, d, limits)
    {
      if d.None? || d.value.name.None? || !d.value.hasProcess {
        return true;
      }
      var found := StageRegistryFind(d.value.name.value);
      if found.Some? || |names| >= limits.maxStages {
        return false;
      }
      names, handles := names + [d.value.name.value], handles + [h];
      return true;
    }

    method LoadOnePlugin(p: Plugin) returns (ok: bool)
      modifies this
      ensures Result(View(), ok) == LoadedOne(old(View()), p, limits)
    {
      if p.Unopenable? {
        return true;
      }
      open := open + multiset{p.handle};
      if p.version != Some(limits.abiVersion) {
        Dlclose(p.handle);
        return true;
      }
      match p.exports {
        case Loomlet(stages) =>
          ok := LoadLoomlet(p.handle, stages);
        case Nothing =>
          Dlclose(p.handle);
          return true;
        case Single(stage) =>
          ok := RegisterStage(p.handle, stage);
      }
      if !ok {
        Dlclose(p.handle);
      }
    }

    method LoadLoomlet(h: nat, stages: seq<Descriptor>) returns (ok: bool)
      modifies this
      ensures Result(View(), ok) == RegisteredAll(old(View()), h, stages, limits)
    {
      ghost var start := View();
      var index := 0;
      assert stages[0..] == stages;
      while index < |stages|
        invariant 0 <= index <= |stages|
        invariant RegisteredAll(start, h, stages, limits) == RegisteredAll(View(), h, stages[index..], limits)
      {
        assert stages[index..][1..] == stages[index + 1..];
        ok := RegisterStage(h, Some(stages[index]));
        if !ok {
          return false;
        }
        index := index + 1;
      }
      return true;
    }

    method Load(plugins: seq<Plugin>) returns (ok: bool)
      modifies this
      ensures Result(View(), ok) == LoadedAll(old(View()), plugins, limits)
    {
      ghost var start := View();
      ok := true;
      var i := 0;
      assert plugins[0..] == plugins;
      while i < |plugins| && ok
        invariant 0 <= i <= |plugins|
        invariant LoadedAll(start, plugins, limits) ==
          if ok then LoadedAll(View(), plugins[i..], limits) else Result(View(), false)
      {
        assert plugins[i..][1..] == plugins[i + 1..];
        ok := LoadOnePlugin(plugins[i]);
        i := i + 1;
      }
    }

    method AlreadyClosed(i: nat) returns (r: bool)
      requires 0 < i <= |handles|
      ensures r <==> handles[i - 1] in handles[i..]
    {
      var j := i;
      while j < |handles|
        invariant i <= j <= |handles| && handles[i - 1] !in handles[i..j]
      {
        if handles[j] == handles[i - 1] {
          assert handles[i..][j - i] == handles[i - 1];
          return true;
        }
        assert handles[i..j + 1] == handles[i..j] + [handles[j]];
        j := j + 1;
      }
      assert handles[i..] == handles[i..j];
      return false;
    }

    method Shutdown()
      modifies this
      ensures View() == ShutDown(old(View()))
    {
      hide CloseAll;
      ghost var start := View();
      var i := |handles|;
      while i > 0
        invariant 0 <= i <= |handles| && handles == start.handles && names == start.names
        invariant CloseAll(start, Closing(handles, |handles|)) == CloseAll(View(), Closing(handles, i))
      {
        var already := AlreadyClosed(i);
        if !already {
          CloseAllStep(View(), handles[i - 1], Closing(handles, i - 1));
          Dlclose(handles[i - 1]);
        } else {
          assert [] + Closing(handles, i - 1) == Closing(handles, i - 1);
        }
        i := i - 1;
      }
      CloseNone(View());
      names, handles := [], [];
    }
  }
}
