/** The plugin manager: routing tables updated in place by loading and unloading plugins, and
    `launch`, which runs one hook on one event. Each table update is one method that walks the
    plugin's hooks the way the source does and is proved equal to the corresponding fold of the
    `Registry` module. */
module PluginManagers {
  import opened Wrappers
  import opened Events
  import opened Hooks
  import opened Seqs
  import opened Registry
  import opened Dispatch

  /** The locks a launch takes: the hook's key when it is single-instance and got to run. */
  function LockSet(o: Outcome): (r: set<(string, string)>)
    ensures |r| <= 1
    ensures forall k :: k in r <==> o.lock == Some(k)
  {
    if o.lock.Some? then {o.lock.value} else {}
  }

  /** How the on_start hooks of a plugin ran: whether all succeeded, how many were launched (the
      first failure stops the rest) and the locks they took. */
  datatype Startup = Startup(ok: bool, ran: nat, locks: set<(string, string)>)

  /** The on_start hooks launched one after the other by `launch`, stopping at the first failure. */
  function StartupsBy(hooks: seq<Hook>, launch: Hook -> Outcome): (r: Startup)
    ensures r.ran <= |hooks|
    ensures r.ok ==> r.ran == |hooks|
    ensures !r.ok ==> r.ran >= 1
  {
    if |hooks| == 0 then Startup(true, 0, {})
    else
      var n := |hooks| - 1;
      var prev := StartupsBy(hooks[..n], launch);
      if !prev.ok then prev
      else
        var o := launch(hooks[n]);
        Startup(o.success, prev.ran + 1, prev.locks + LockSet(o))
  }

  /** How `launch` runs an on_start hook: on its lifecycle event, with the given sieve list. */
  function StartLaunch(sieves: seq<Hook>, env: Env): Hook -> Outcome {
    h => LaunchOutcome(sieves, h, env.lifecycleEvent(h), env)
  }

  lemma StartLaunchApply(sieves: seq<Hook>, env: Env, h: Hook)
    ensures StartLaunch(sieves, env)(h) == LaunchOutcome(sieves, h, env.lifecycleEvent(h), env)
  {
  }

  /** The on_start hooks of a plugin, each launched on its lifecycle event. */
  function Startups(hooks: seq<Hook>, sieves: seq<Hook>, env: Env): Startup {
    StartupsBy(hooks, StartLaunch(sieves, env))
  }

  /** The run succeeds exactly when every launch does. */
  lemma {:induction false} StartupsByOk(hooks: seq<Hook>, launch: Hook -> Outcome)
    ensures StartupsBy(hooks, launch).ok <==> forall k :: 0 <= k < |hooks| ==> launch(hooks[k]).success
  {
    if |hooks| > 0 {
      var n := |hooks| - 1;
      var front := hooks[..n];
      StartupsByOk(front, launch);
      assert (forall k :: 0 <= k < |hooks| ==> launch(hooks[k]).success)
        <==> (forall k :: 0 <= k < n ==> launch(front[k]).success) && launch(hooks[n]).success
      by {
        assert forall k :: 0 <= k < n ==> front[k] == hooks[k];
      }
    }
  }

  /** A plugin's hooks are registered exactly when every on_start hook succeeds. */
  lemma StartupsOk(hooks: seq<Hook>, sieves: seq<Hook>, env: Env)
    ensures Startups(hooks, sieves, env).ok <==>
      forall k :: 0 <= k < |hooks| ==> LaunchOutcome(sieves, hooks[k], env.lifecycleEvent(hooks[k]), env).success
  {
    StartupsByOk(hooks, StartLaunch(sieves, env));
  }

  class PluginManager {
    var plugins: map<string, Plugin>
    var commands: map<string, Hook>
    var rawTriggers: map<string, seq<Hook>>
    var catchAllTriggers: seq<Hook>
    var eventTypeHooks: map<EventType, seq<Hook>>
    var regexHooks: seq<(Pattern, Hook)>
    var sieves: seq<Hook>
    /** The keys of `_hook_locks`: one lock per single-instance hook ever launched. */
    var hookLocks: set<(string, string)>

    function Tables(): Tables
      reads this
    {
      Registry.Tables(plugins, commands, rawTriggers, catchAllTriggers, eventTypeHooks, regexHooks, sieves)
    }

    ghost predicate Valid()
      reads this
    {
      WellFormed(Tables())
    }

    constructor ()
      ensures Tables() == Registry.Tables(map[], map[], map[], [], map[], [], [])
      ensures hookLocks == {}
      ensures Valid()
    {
      plugins := map[];
      commands := map[];
      rawTriggers := map[];
      catchAllTriggers := [];
      eventTypeHooks := map[];
      regexHooks := [];
      sieves := [];
      hookLocks := {};
    }

    // -------------------------------------------------------------------------------------------
    // Running hooks.

    /** `_execute_hook`. */
    method ExecuteHook(h: Hook, e: Event, env: Env) returns (x: Execution)
      ensures x == Execute(h, e, env)
    {
      var params := PrepareParameters(h, e);
      if params.None? {
        return Execution(false, false, None);
      }
      var result := env.handler(h, params.value);
      if result.Raised? {
        return Execution(false, true, None);
      }
      var reply: Option<seq<string>>;
      match result.out {
        case NoValue => reply := None;
        case Items(items) => reply := Some(items);
        case Scalar(s) => reply := Some(Text.Split(s, '\n'));
      }
      return Execution(true, true, reply);
    }

    /** `launch`: the outcome is the one `Dispatch` specifies on the current sieve list, and the
        only state it changes is the lock table, which gains the key of the lock it took. */
    method Launch(h: Hook, e: Event, env: Env) returns (o: Outcome)
      modifies this`hookLocks
      ensures o == LaunchOutcome(sieves, h, e, env)
      ensures hookLocks == old(hookLocks) + LockSet(o)
    {
      var ev := e;
      var ran := 0;
      if !SkipsSieves(h) {
        for i := 0 to |sieves|
          invariant RunSieves(sieves[..i], e, env) == SieveRun(Some(ev), i)
        {
          assert sieves[..i + 1][..i] == sieves[..i];
          var next := env.sieve(sieves[i], ev);
          if next.None? {
            RejectionFinal(sieves, e, env, i + 1);
            return Outcome(false, i + 1, false, false, None, None);
          }
          ev := next.value;
        }
        assert sieves[..|sieves|] == sieves;
        ran := |sieves|;
      }
      if WantsHelp(h, ev) {
        return Outcome(false, ran, true, false, None, None);
      }
      if h.singleThread {
        hookLocks := hookLocks + {LockKey(h)};
      }
      var x := ExecuteHook(h, ev, env);
      o := Outcome(x.success, ran, false, x.called, x.reply, if h.singleThread then Some(LockKey(h)) else None);
    }

    // -------------------------------------------------------------------------------------------
    // Loading.

    /** `load_plugin` on a file whose path and title are given, where `scanned` is the scanned
        module, or `None` when importing it raised. A plugin loaded from the same path is unloaded
        first; the hooks are registered only when every on_start hook succeeds. */
    method LoadPlugin(filePath: string, title: string, scanned: Option<seq<Tagged>>, env: Env) returns (loaded: bool)
      requires Valid()
      modifies this
      ensures Valid()
      ensures scanned.None? ==> !loaded && Tables() == UnloadIfLoaded(old(Tables()), filePath) && hookLocks == old(hookLocks)
      ensures scanned.Some? ==>
        var t1 := UnloadIfLoaded(old(Tables()), filePath);
        var p := MakePlugin(filePath, title, scanned.value);
        var s := Startups(p.onStart, t1.sieves, env);
        && loaded == s.ok
        && Tables() == (if s.ok then Register(t1, p) else t1)
        && hookLocks == old(hookLocks) + s.locks
    {
      if filePath in plugins {
        var _ := Unload(filePath);
      }
      if scanned.None? {
        return false;
      }
      var p := MakePlugin(filePath, title, scanned.value);
      var ok := RunStartups(p.onStart, env);
      if !ok {
        return false;
      }
      RegisterPlugin(p);
      return true;
    }

    /** One hook launched on the event built for it (an on_start or on_stop hook). */
    method LaunchLifecycleHook(h: Hook, env: Env) returns (o: Outcome)
      modifies this`hookLocks
      ensures o == StartLaunch(sieves, env)(h)
      ensures hookLocks == old(hookLocks) + LockSet(o)
    {
      o := Launch(h, env.lifecycleEvent(h), env);
      StartLaunchApply(sieves, env, h);
    }

    /** The on_start loop of `load_plugin`: launches each hook on its lifecycle event and stops at
        the first failure. */
    method RunStartups(hooks: seq<Hook>, env: Env) returns (ok: bool)
      modifies this`hookLocks
      ensures ok == Startups(hooks, sieves, env).ok
      ensures hookLocks == old(hookLocks) + Startups(hooks, sieves, env).locks
    {
      ghost var launch := StartLaunch(sieves, env);
      for i := 0 to |hooks|
        invariant StartupsBy(hooks[..i], launch).ok
        invariant hookLocks == old(hookLocks) + StartupsBy(hooks[..i], launch).locks
      {
        ghost var before := hookLocks;
        var h := hooks[i];
        var o := LaunchLifecycleHook(h, env);
        StartupsAdvance(hooks, launch, i, o, old(hookLocks), before, hookLocks);
        if !o.success {
          return false;
        }
      }
      assert hooks[..|hooks|] == hooks;
      return true;
    }

    /** The registration half of `load_plugin`: records the plugin without its on_start hooks and
        files each of its hooks. */
    method RegisterPlugin(p: Plugin)
      requires Valid()
      modifies this`plugins, this`commands, this`rawTriggers, this`catchAllTriggers,
        this`eventTypeHooks, this`regexHooks, this`sieves
      ensures Valid()
      ensures Tables() == Register(old(Tables()), p)
    {
      RegisterWellFormed(Tables(), p);
      plugins := plugins[p.filePath := p.(onStart := [])];
      RegisterEventHooks(p);
      RegisterCommandHooks(p);
      RegisterRawHooks(p);
      RegisterRegexHooks(p);
      RegisterSieveHooks(p);
    }

    method RegisterEventHooks(p: Plugin)
      modifies this`eventTypeHooks
      ensures eventTypeHooks == RegisterKeyed(old(eventTypeHooks), p.events, TypesOf)
    {
      var m0 := eventTypeHooks;
      for i := 0 to |p.events|
        invariant eventTypeHooks == RegisterKeyed(m0, p.events[..i], TypesOf)
      {
        assert p.events[..i + 1][..i] == p.events[..i];
        var h := p.events[i];
        for j := 0 to |h.types|
          invariant eventTypeHooks == AppendUnder(RegisterKeyed(m0, p.events[..i], TypesOf), h, h.types[..j])
        {
          assert h.types[..j + 1][..j] == h.types[..j];
          var et := h.types[j];
          if et in eventTypeHooks {
            eventTypeHooks := eventTypeHooks[et := eventTypeHooks[et] + [h]];
          } else {
            eventTypeHooks := eventTypeHooks[et := [h]];
          }
        }
        assert h.types[..|h.types|] == h.types;
      }
      assert p.events[..|p.events|] == p.events;
    }

    method RegisterCommandHooks(p: Plugin)
      modifies this`commands
      ensures commands == RegisterCommands(old(commands), p.commands)
    {
      var m0 := commands;
      for i := 0 to |p.commands|
        invariant commands == RegisterCommands(m0, p.commands[..i])
      {
        assert p.commands[..i + 1][..i] == p.commands[..i];
        var h := p.commands[i];
        for j := 0 to |h.aliases|
          invariant commands == AddAliases(RegisterCommands(m0, p.commands[..i]), h, h.aliases[..j])
        {
          assert h.aliases[..j + 1][..j] == h.aliases[..j];
          var alias := h.aliases[j];
          if alias !in commands {
            commands := commands[alias := h];
          }
        }
        assert h.aliases[..|h.aliases|] == h.aliases;
      }
      assert p.commands[..|p.commands|] == p.commands;
    }

    method RegisterRawHooks(p: Plugin)
      modifies this`rawTriggers, this`catchAllTriggers
      ensures rawTriggers == RegisterKeyed(old(rawTriggers), p.rawHooks, RawKeysOf)
      ensures catchAllTriggers == old(catchAllTriggers) + Contributions(p.rawHooks, CatchAllItem)
    {
      var m0, c0 := rawTriggers, catchAllTriggers;
      for i := 0 to |p.rawHooks|
        invariant rawTriggers == RegisterKeyed(m0, p.rawHooks[..i], RawKeysOf)
        invariant catchAllTriggers == c0 + Contributions(p.rawHooks[..i], CatchAllItem)
      {
        assert p.rawHooks[..i + 1][..i] == p.rawHooks[..i];
        var h := p.rawHooks[i];
        var done := Contributions(p.rawHooks[..i], CatchAllItem);
        assert Contributions(p.rawHooks[..i + 1], CatchAllItem) == done + CatchAllItem(h);
        if IsCatchAll(h) {
          assert c0 + (done + [h]) == c0 + done + [h];
          catchAllTriggers := catchAllTriggers + [h];
        } else {
          assert done + [] == done;
          for j := 0 to |h.triggers|
            invariant rawTriggers == AppendUnder(RegisterKeyed(m0, p.rawHooks[..i], RawKeysOf), h, h.triggers[..j])
            invariant catchAllTriggers == c0 + done
          {
            assert h.triggers[..j + 1][..j] == h.triggers[..j];
            var trigger := h.triggers[j];
            if trigger in rawTriggers {
              rawTriggers := rawTriggers[trigger := rawTriggers[trigger] + [h]];
            } else {
              rawTriggers := rawTriggers[trigger := [h]];
            }
          }
          assert h.triggers[..|h.triggers|] == h.triggers;
        }
      }
      assert p.rawHooks[..|p.rawHooks|] == p.rawHooks;
    }

    method RegisterRegexHooks(p: Plugin)
      modifies this`regexHooks
      ensures regexHooks == old(regexHooks) + Contributions(p.regexes, RegexItems)
    {
      var l0 := regexHooks;
      for i := 0 to |p.regexes|
        invariant regexHooks == l0 + Contributions(p.regexes[..i], RegexItems)
      {
        assert p.regexes[..i + 1][..i] == p.regexes[..i];
        var h := p.regexes[i];
        var done := Contributions(p.regexes[..i], RegexItems);
        for j := 0 to |h.patterns|
          invariant regexHooks == l0 + done + PairsUpTo(h, j)
        {
          AppendAssoc(l0 + done, PairsUpTo(h, j), [(h.patterns[j], h)]);
          regexHooks := regexHooks + [(h.patterns[j], h)];
        }
        assert Contributions(p.regexes[..i + 1], RegexItems) == done + RegexItems(h);
        AppendAssoc(l0, done, RegexItems(h));
      }
      assert p.regexes[..|p.regexes|] == p.regexes;
    }

    method RegisterSieveHooks(p: Plugin)
      modifies this`sieves
      ensures sieves == old(sieves) + p.sieves
    {
      var l0 := sieves;
      for i := 0 to |p.sieves|
        invariant sieves == l0 + p.sieves[..i]
      {
        assert p.sieves[..i + 1] == p.sieves[..i] + [p.sieves[i]];
        sieves := sieves + [p.sieves[i]];
      }
      assert p.sieves[..|p.sieves|] == p.sieves;
    }

    // -------------------------------------------------------------------------------------------
    // Unloading.

    /** `_unload`: reports whether a plugin was loaded from `path` and, if so, unregisters all of
        its hooks and forgets it. */
    method Unload(path: string) returns (found: bool)
      requires Valid()
      modifies this`plugins, this`commands, this`rawTriggers, this`catchAllTriggers,
        this`eventTypeHooks, this`regexHooks, this`sieves
      ensures Valid()
      ensures found <==> path in old(plugins)
      ensures Tables() == UnloadIfLoaded(old(Tables()), path)
    {
      if path !in plugins {
        return false;
      }
      UnregisterWellFormed(Tables(), path);
      var p := plugins[path];
      UnregisterCommandHooks(p);
      UnregisterRawHooks(p);
      UnregisterEventHooks(p);
      UnregisterRegexHooks(p);
      UnregisterSieveHooks(p);
      plugins := plugins - {p.filePath};
      return true;
    }

    method UnregisterCommandHooks(p: Plugin)
      modifies this`commands
      ensures commands == UnregisterCommands(old(commands), p.commands)
    {
      var m0 := commands;
      for i := 0 to |p.commands|
        invariant commands == UnregisterCommands(m0, p.commands[..i])
      {
        assert p.commands[..i + 1][..i] == p.commands[..i];
        var h := p.commands[i];
        for j := 0 to |h.aliases|
          invariant commands == DropAliases(UnregisterCommands(m0, p.commands[..i]), h, h.aliases[..j])
        {
          assert h.aliases[..j + 1][..j] == h.aliases[..j];
          var alias := h.aliases[j];
          if alias in commands && commands[alias] == h {
            commands := commands - {alias};
          }
        }
        assert h.aliases[..|h.aliases|] == h.aliases;
      }
      assert p.commands[..|p.commands|] == p.commands;
    }

    method UnregisterRawHooks(p: Plugin)
      modifies this`rawTriggers, this`catchAllTriggers
      ensures rawTriggers == UnregisterKeyed(old(rawTriggers), p.rawHooks, RawKeysOf)
      ensures catchAllTriggers == RemoveEach(old(catchAllTriggers), Contributions(p.rawHooks, CatchAllItem))
    {
      var m0, c0 := rawTriggers, catchAllTriggers;
      for i := 0 to |p.rawHooks|
        invariant rawTriggers == UnregisterKeyed(m0, p.rawHooks[..i], RawKeysOf)
        invariant catchAllTriggers == RemoveEach(c0, Contributions(p.rawHooks[..i], CatchAllItem))
      {
        assert p.rawHooks[..i + 1][..i] == p.rawHooks[..i];
        var h := p.rawHooks[i];
        var done := Contributions(p.rawHooks[..i], CatchAllItem);
        assert Contributions(p.rawHooks[..i + 1], CatchAllItem) == done + CatchAllItem(h);
        if IsCatchAll(h) {
          RemoveEachSnoc(c0, done, h);
          catchAllTriggers := RemoveFirst(catchAllTriggers, h);
        } else {
          assert done + [] == done;
          for j := 0 to |h.triggers|
            invariant rawTriggers == RemoveUnder(UnregisterKeyed(m0, p.rawHooks[..i], RawKeysOf), h, h.triggers[..j])
            invariant catchAllTriggers == RemoveEach(c0, done)
          {
            assert h.triggers[..j + 1][..j] == h.triggers[..j];
            var trigger := h.triggers[j];
            if trigger in rawTriggers {
              var remaining := RemoveFirst(rawTriggers[trigger], h);
              if remaining == [] {
                rawTriggers := rawTriggers - {trigger};
              } else {
                rawTriggers := rawTriggers[trigger := remaining];
              }
            }
          }
          assert h.triggers[..|h.triggers|] == h.triggers;
        }
      }
      assert p.rawHooks[..|p.rawHooks|] == p.rawHooks;
    }

    method UnregisterEventHooks(p: Plugin)
      modifies this`eventTypeHooks
      ensures eventTypeHooks == UnregisterKeyed(old(eventTypeHooks), p.events, TypesOf)
    {
      var m0 := eventTypeHooks;
      for i := 0 to |p.events|
        invariant eventTypeHooks == UnregisterKeyed(m0, p.events[..i], TypesOf)
      {
        assert p.events[..i + 1][..i] == p.events[..i];
        var h := p.events[i];
        for j := 0 to |h.types|
          invariant eventTypeHooks == RemoveUnder(UnregisterKeyed(m0, p.events[..i], TypesOf), h, h.types[..j])
        {
          assert h.types[..j + 1][..j] == h.types[..j];
          var et := h.types[j];
          if et in eventTypeHooks {
            var remaining := RemoveFirst(eventTypeHooks[et], h);
            if remaining == [] {
              eventTypeHooks := eventTypeHooks - {et};
            } else {
              eventTypeHooks := eventTypeHooks[et := remaining];
            }
          }
        }
        assert h.types[..|h.types|] == h.types;
      }
      assert p.events[..|p.events|] == p.events;
    }

    method UnregisterRegexHooks(p: Plugin)
      modifies this`regexHooks
      ensures regexHooks == RemoveEach(old(regexHooks), Contributions(p.regexes, RegexItems))
    {
      var l0 := regexHooks;
      for i := 0 to |p.regexes|
        invariant regexHooks == RemoveEach(l0, Contributions(p.regexes[..i], RegexItems))
      {
        assert p.regexes[..i + 1][..i] == p.regexes[..i];
        var h := p.regexes[i];
        var done := Contributions(p.regexes[..i], RegexItems);
        for j := 0 to |h.patterns|
          invariant regexHooks == RemoveEach(RemoveEach(l0, done), PairsUpTo(h, j))
        {
          RemoveEachSnoc(RemoveEach(l0, done), PairsUpTo(h, j), (h.patterns[j], h));
          regexHooks := RemoveFirst(regexHooks, (h.patterns[j], h));
        }
        assert Contributions(p.regexes[..i + 1], RegexItems) == done + RegexItems(h);
        RemoveEachConcat(l0, done, RegexItems(h));
      }
      assert p.regexes[..|p.regexes|] == p.regexes;
    }

    method UnregisterSieveHooks(p: Plugin)
      modifies this`sieves
      ensures sieves == RemoveEach(old(sieves), p.sieves)
    {
      var l0 := sieves;
      for i := 0 to |p.sieves|
        invariant sieves == RemoveEach(l0, p.sieves[..i])
      {
        assert p.sieves[..i + 1][..i] == p.sieves[..i];
        sieves := RemoveFirst(sieves, p.sieves[i]);
      }
      assert p.sieves[..|p.sieves|] == p.sieves;
    }
  }

  /** One more launch after a successful prefix. */
  lemma StartupsNext(hooks: seq<Hook>, launch: Hook -> Outcome, i: nat)
    requires i < |hooks| && StartupsBy(hooks[..i], launch).ok
    ensures var prev := StartupsBy(hooks[..i], launch);
      var o := launch(hooks[i]);
      StartupsBy(hooks[..i + 1], launch) == Startup(o.success, prev.ran + 1, prev.locks + LockSet(o))
  {
    assert hooks[..i + 1][..i] == hooks[..i];
  }

  /** The bookkeeping of one turn of the on_start loop: the launch's outcome extends the run,
      and a failure ends it for good. */
  lemma StartupsAdvance(hooks: seq<Hook>, launch: Hook -> Outcome, i: nat, o: Outcome,
                        locks0: set<(string, string)>, before: set<(string, string)>, after: set<(string, string)>)
    requires i < |hooks| && StartupsBy(hooks[..i], launch).ok && o == launch(hooks[i])
    requires before == locks0 + StartupsBy(hooks[..i], launch).locks && after == before + LockSet(o)
    ensures StartupsBy(hooks[..i + 1], launch).ok == o.success
    ensures after == locks0 + StartupsBy(hooks[..i + 1], launch).locks
    ensures !o.success ==> StartupsBy(hooks, launch) == StartupsBy(hooks[..i + 1], launch)
  {
    StartupsNext(hooks, launch, i);
    LocksAssoc(locks0, StartupsBy(hooks[..i], launch).locks, LockSet(o));
    if !o.success {
      StartupsStop(hooks, launch, i + 1);
    }
  }

  lemma LocksAssoc(a: set<(string, string)>, b: set<(string, string)>, c: set<(string, string)>)
    ensures a + b + c == a + (b + c)
  {
  }

  /** Once an on_start hook has failed, the later ones are not launched. */
  lemma {:induction false} StartupsFinal(hooks: seq<Hook>, launch: Hook -> Outcome, k: nat)
    requires k <= |hooks| && !StartupsBy(hooks[..k], launch).ok
    ensures StartupsBy(hooks, launch) == StartupsBy(hooks[..k], launch)
    decreases |hooks|
  {
    if k < |hooks| {
      var n := |hooks| - 1;
      assert hooks[..n][..k] == hooks[..k];
      StartupsFinal(hooks[..n], launch, k);
    } else {
      assert hooks[..k] == hooks;
    }
  }

  /** A failed on_start hook ends the startup run there. */
  lemma StartupsStop(hooks: seq<Hook>, launch: Hook -> Outcome, k: nat)
    requires 1 <= k <= |hooks|
    requires StartupsBy(hooks[..k - 1], launch).ok
    requires !launch(hooks[k - 1]).success
    ensures StartupsBy(hooks, launch) == StartupsBy(hooks[..k], launch)
    ensures !StartupsBy(hooks, launch).ok
  {
    assert hooks[..k][..k - 1] == hooks[..k - 1];
    assert hooks[..k][k - 1] == hooks[k - 1];
    StartupsFinal(hooks, launch, k);
  }
}
