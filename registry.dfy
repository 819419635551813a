/** The plugin manager's routing tables as a value, and what loading and unloading a plugin does
    to them, table by table. Every fold below walks its hooks (and each hook's keys) in list order,
    so a loop that has handled a prefix has computed the fold of that prefix. */
module Registry {
  import opened Wrappers
  import opened Events
  import opened Hooks
  import opened Seqs

  /** `plugins`, `commands`, `raw_triggers`, `catch_all_triggers`, `event_type_hooks`,
      `regex_hooks` and `sieves` of a plugin manager. */
  datatype Tables = Tables(
    plugins: map<string, Plugin>,
    commands: map<string, Hook>,
    rawTriggers: map<string, seq<Hook>>,
    catchAll: seq<Hook>,
    eventTypeHooks: map<EventType, seq<Hook>>,
    regexHooks: seq<(Pattern, Hook)>,
    sieves: seq<Hook>)

  // ---------------------------------------------------------------------------------------------
  // Tables of lists keyed by a verb or an event type.

  /** The list under `k`, or the empty list when `k` is not a key. */
  function View<K(==,!new)>(m: map<K, seq<Hook>>, k: K): seq<Hook> {
    if k in m then m[k] else []
  }

  /** The tables never keep a key whose list became empty. */
  predicate NoEmptyLists<K(==,!new)>(m: map<K, seq<Hook>>) {
    forall k :: k in m ==> m[k] != []
  }

  lemma ViewExtensional<K(!new)>(m1: map<K, seq<Hook>>, m2: map<K, seq<Hook>>)
    requires NoEmptyLists(m1) && NoEmptyLists(m2)
    requires forall k :: View(m1, k) == View(m2, k)
    ensures m1 == m2
  {
    assert forall k :: k in m1 <==> View(m1, k) != [];
    assert forall k :: k in m2 <==> View(m2, k) != [];
    assert m1.Keys == m2.Keys;
  }

  /** `if k in m: m[k].append(h) else: m[k] = [h]`. */
  function AppendAt<K(==,!new)>(m: map<K, seq<Hook>>, k: K, h: Hook): (r: map<K, seq<Hook>>)
    ensures NoEmptyLists(m) ==> NoEmptyLists(r)
  {
    if k in m then m[k := m[k] + [h]] else m[k := [h]]
  }

  /** `m[k].remove(h)` followed by `del m[k]` when the list became empty. */
  function RemoveAt<K(==,!new)>(m: map<K, seq<Hook>>, k: K, h: Hook): (r: map<K, seq<Hook>>)
    ensures NoEmptyLists(m) ==> NoEmptyLists(r)
  {
    if k in m then
      var l := RemoveFirst(m[k], h);
      if l == [] then m - {k} else m[k := l]
    else m
  }

  lemma AppendAtView<K(!new)>(m: map<K, seq<Hook>>, k: K, h: Hook, j: K)
    ensures View(AppendAt(m, k, h), j) == View(m, j) + (if j == k then [h] else [])
  {
  }

  lemma RemoveAtView<K(!new)>(m: map<K, seq<Hook>>, k: K, h: Hook, j: K)
    ensures View(RemoveAt(m, k, h), j) == if j == k then RemoveFirst(View(m, j), h) else View(m, j)
  {
  }

  /** One copy of `h` for each occurrence of `j` among `keys`. */
  function Copies<K(==,!new)>(h: Hook, keys: seq<K>, j: K): seq<Hook> {
    if |keys| == 0 then []
    else Copies(h, keys[..|keys| - 1], j) + (if keys[|keys| - 1] == j then [h] else [])
  }

  /** `h` appended under each of `keys`, in order. */
  function AppendUnder<K(==,!new)>(m: map<K, seq<Hook>>, h: Hook, keys: seq<K>): map<K, seq<Hook>> {
    if |keys| == 0 then m else AppendAt(AppendUnder(m, h, keys[..|keys| - 1]), keys[|keys| - 1], h)
  }

  /** `h` removed from under each of `keys`, in order. */
  function RemoveUnder<K(==,!new)>(m: map<K, seq<Hook>>, h: Hook, keys: seq<K>): map<K, seq<Hook>> {
    if |keys| == 0 then m else RemoveAt(RemoveUnder(m, h, keys[..|keys| - 1]), keys[|keys| - 1], h)
  }

  lemma {:induction false} AppendUnderView<K(!new)>(m: map<K, seq<Hook>>, h: Hook, keys: seq<K>, j: K)
    ensures View(AppendUnder(m, h, keys), j) == View(m, j) + Copies(h, keys, j)
  {
    if |keys| > 0 {
      var n := |keys| - 1;
      AppendUnderView(m, h, keys[..n], j);
      AppendAtView(AppendUnder(m, h, keys[..n]), keys[n], h, j);
    }
  }

  lemma {:induction false} RemoveUnderView<K(!new)>(m: map<K, seq<Hook>>, h: Hook, keys: seq<K>, j: K)
    ensures View(RemoveUnder(m, h, keys), j) == RemoveEach(View(m, j), Copies(h, keys, j))
  {
    if |keys| > 0 {
      var n := |keys| - 1;
      RemoveUnderView(m, h, keys[..n], j);
      RemoveAtView(RemoveUnder(m, h, keys[..n]), keys[n], h, j);
      var prev := Copies(h, keys[..n], j);
      if keys[n] == j {
        assert (prev + [h])[..|prev|] == prev;
      } else {
        assert prev + [] == prev;
      }
    }
  }

  lemma {:induction false} AppendUnderNoEmpty<K(!new)>(m: map<K, seq<Hook>>, h: Hook, keys: seq<K>)
    requires NoEmptyLists(m)
    ensures NoEmptyLists(AppendUnder(m, h, keys))
  {
    if |keys| > 0 {
      AppendUnderNoEmpty(m, h, keys[..|keys| - 1]);
    }
  }

  lemma {:induction false} RemoveUnderNoEmpty<K(!new)>(m: map<K, seq<Hook>>, h: Hook, keys: seq<K>)
    requires NoEmptyLists(m)
    ensures NoEmptyLists(RemoveUnder(m, h, keys))
  {
    if |keys| > 0 {
      RemoveUnderNoEmpty(m, h, keys[..|keys| - 1]);
    }
  }

  /** The list of hooks registered under `j` by a fold over `hooks`, in registration order. */
  function KeyedAdds<K(==,!new)>(hooks: seq<Hook>, keysOf: Hook -> seq<K>, j: K): seq<Hook> {
    if |hooks| == 0 then []
    else
      var n := |hooks| - 1;
      KeyedAdds(hooks[..n], keysOf, j) + Copies(hooks[n], keysOf(hooks[n]), j)
  }

  /** Registers each hook under each of its keys. */
  function RegisterKeyed<K(==,!new)>(m: map<K, seq<Hook>>, hooks: seq<Hook>, keysOf: Hook -> seq<K>): map<K, seq<Hook>> {
    if |hooks| == 0 then m
    else
      var n := |hooks| - 1;
      AppendUnder(RegisterKeyed(m, hooks[..n], keysOf), hooks[n], keysOf(hooks[n]))
  }

  /** Unregisters each hook from under each of its keys. */
  function UnregisterKeyed<K(==,!new)>(m: map<K, seq<Hook>>, hooks: seq<Hook>, keysOf: Hook -> seq<K>): map<K, seq<Hook>> {
    if |hooks| == 0 then m
    else
      var n := |hooks| - 1;
      RemoveUnder(UnregisterKeyed(m, hooks[..n], keysOf), hooks[n], keysOf(hooks[n]))
  }

  lemma {:induction false} CopiesOnly<K(!new)>(h: Hook, keys: seq<K>, j: K, x: Hook)
    requires x in Copies(h, keys, j)
    ensures x == h
  {
    if |keys| > 0 {
      var n := |keys| - 1;
      if x in Copies(h, keys[..n], j) {
        CopiesOnly(h, keys[..n], j, x);
      }
    }
  }

  lemma {:induction false} KeyedAddsFrom<K(!new)>(hooks: seq<Hook>, keysOf: Hook -> seq<K>, j: K, x: Hook)
    requires x in KeyedAdds(hooks, keysOf, j)
    ensures x in hooks
  {
    var n := |hooks| - 1;
    if x in KeyedAdds(hooks[..n], keysOf, j) {
      KeyedAddsFrom(hooks[..n], keysOf, j, x);
    } else {
      CopiesOnly(hooks[n], keysOf(hooks[n]), j, x);
    }
  }

  lemma {:induction false} RegisterKeyedView<K(!new)>(m: map<K, seq<Hook>>, hooks: seq<Hook>, keysOf: Hook -> seq<K>, j: K)
    ensures View(RegisterKeyed(m, hooks, keysOf), j) == View(m, j) + KeyedAdds(hooks, keysOf, j)
  {
    if |hooks| > 0 {
      var n := |hooks| - 1;
      var prev := RegisterKeyed(m, hooks[..n], keysOf);
      var before := KeyedAdds(hooks[..n], keysOf, j);
      var copies := Copies(hooks[n], keysOf(hooks[n]), j);
      assert View(prev, j) == View(m, j) + before by {
        RegisterKeyedView(m, hooks[..n], keysOf, j);
      }
      assert View(RegisterKeyed(m, hooks, keysOf), j) == View(prev, j) + copies by {
        AppendUnderView(prev, hooks[n], keysOf(hooks[n]), j);
      }
      assert KeyedAdds(hooks, keysOf, j) == before + copies;
      assert View(m, j) + before + copies == View(m, j) + (before + copies);
    }
  }

  lemma {:induction false} UnregisterKeyedView<K(!new)>(m: map<K, seq<Hook>>, hooks: seq<Hook>, keysOf: Hook -> seq<K>, j: K)
    ensures View(UnregisterKeyed(m, hooks, keysOf), j) == RemoveEach(View(m, j), KeyedAdds(hooks, keysOf, j))
  {
    if |hooks| > 0 {
      var n := |hooks| - 1;
      UnregisterKeyedView(m, hooks[..n], keysOf, j);
      RemoveUnderView(UnregisterKeyed(m, hooks[..n], keysOf), hooks[n], keysOf(hooks[n]), j);
      RemoveEachConcat(View(m, j), KeyedAdds(hooks[..n], keysOf, j), Copies(hooks[n], keysOf(hooks[n]), j));
    }
  }

  lemma {:induction false} RegisterKeyedNoEmpty<K(!new)>(m: map<K, seq<Hook>>, hooks: seq<Hook>, keysOf: Hook -> seq<K>)
    requires NoEmptyLists(m)
    ensures NoEmptyLists(RegisterKeyed(m, hooks, keysOf))
  {
    if |hooks| > 0 {
      var n := |hooks| - 1;
      RegisterKeyedNoEmpty(m, hooks[..n], keysOf);
      AppendUnderNoEmpty(RegisterKeyed(m, hooks[..n], keysOf), hooks[n], keysOf(hooks[n]));
    }
  }

  lemma {:induction false} UnregisterKeyedNoEmpty<K(!new)>(m: map<K, seq<Hook>>, hooks: seq<Hook>, keysOf: Hook -> seq<K>)
    requires NoEmptyLists(m)
    ensures NoEmptyLists(UnregisterKeyed(m, hooks, keysOf))
  {
    if |hooks| > 0 {
      var n := |hooks| - 1;
      UnregisterKeyedNoEmpty(m, hooks[..n], keysOf);
      RemoveUnderNoEmpty(UnregisterKeyed(m, hooks[..n], keysOf), hooks[n], keysOf(hooks[n]));
    }
  }

  /** No hook of `hooks` is registered anywhere in `m`. */
  predicate KeyedFresh<K(==,!new)>(m: map<K, seq<Hook>>, hooks: seq<Hook>) {
    forall k, x :: k in m && x in m[k] ==> x !in hooks
  }

  /** Unregistering what was just registered restores a keyed table exactly, empty keys included. */
  lemma KeyedRoundTrip<K(!new)>(m: map<K, seq<Hook>>, hooks: seq<Hook>, keysOf: Hook -> seq<K>)
    requires NoEmptyLists(m) && KeyedFresh(m, hooks)
    ensures UnregisterKeyed(RegisterKeyed(m, hooks, keysOf), hooks, keysOf) == m
  {
    var r := RegisterKeyed(m, hooks, keysOf);
    var u := UnregisterKeyed(r, hooks, keysOf);
    forall j ensures View(u, j) == View(m, j) {
      var adds := KeyedAdds(hooks, keysOf, j);
      RegisterKeyedView(m, hooks, keysOf, j);
      UnregisterKeyedView(r, hooks, keysOf, j);
      forall x | x in adds ensures x !in View(m, j) {
        KeyedAddsFrom(hooks, keysOf, j, x);
      }
      RemoveEachAppended(View(m, j), adds, []);
      assert View(m, j) + adds + [] == View(m, j) + adds;
      assert View(m, j) + [] == View(m, j);
    }
    RegisterKeyedNoEmpty(m, hooks, keysOf);
    UnregisterKeyedNoEmpty(r, hooks, keysOf);
    ViewExtensional(u, m);
  }

  /** A hook that is not being unregistered keeps every place it had. */
  lemma UnregisterKeyedKeeps<K(!new)>(m: map<K, seq<Hook>>, hooks: seq<Hook>, keysOf: Hook -> seq<K>, j: K, g: Hook)
    requires g !in hooks
    ensures g in View(UnregisterKeyed(m, hooks, keysOf), j) <==> g in View(m, j)
  {
    UnregisterKeyedView(m, hooks, keysOf, j);
    if g in KeyedAdds(hooks, keysOf, j) {
      KeyedAddsFrom(hooks, keysOf, j, g);
    }
    RemoveEachKeeps(View(m, j), KeyedAdds(hooks, keysOf, j), g);
  }

  // ---------------------------------------------------------------------------------------------
  // Plain lists: catch-all raw hooks, (pattern, hook) pairs and sieves.

  /** The entries a fold over `hooks` appends, each hook contributing `itemsOf(hook)`. */
  function Contributions<T>(hooks: seq<Hook>, itemsOf: Hook -> seq<T>): seq<T> {
    if |hooks| == 0 then [] else Contributions(hooks[..|hooks| - 1], itemsOf) + itemsOf(hooks[|hooks| - 1])
  }

  lemma {:induction false} ContributionsFrom<T>(hooks: seq<Hook>, itemsOf: Hook -> seq<T>, x: T)
    requires x in Contributions(hooks, itemsOf)
    ensures exists h :: h in hooks && x in itemsOf(h)
  {
    var n := |hooks| - 1;
    if x in Contributions(hooks[..n], itemsOf) {
      ContributionsFrom(hooks[..n], itemsOf, x);
    } else {
      assert hooks[n] in hooks;
    }
  }

  /** Removing, in order, the entries just appended restores the list. */
  lemma ListRoundTrip<T>(l: seq<T>, items: seq<T>)
    requires forall x :: x in items ==> x !in l
    ensures RemoveEach(l + items, items) == l
  {
    RemoveEachAppended(l, items, []);
    assert l + items + [] == l + items;
    assert l + [] == l;
  }

  // ---------------------------------------------------------------------------------------------
  // The per-kind contributions of a hook.

  /** The event types an event hook is registered under. */
  function TypesOf(h: Hook): seq<EventType> { h.types }

  /** The verbs a raw hook is registered under: none for a catch-all hook. */
  function RawKeysOf(h: Hook): seq<string> {
    if IsCatchAll(h) then [] else h.triggers
  }

  /** What a raw hook adds to `catch_all_triggers`. */
  function CatchAllItem(h: Hook): seq<Hook> {
    if IsCatchAll(h) then [h] else []
  }

  /** The (pattern, hook) pairs a regex hook adds to `regex_hooks`, one per pattern. */
  function RegexItems(h: Hook): seq<(Pattern, Hook)> {
    PairsUpTo(h, |h.patterns|)
  }

  function PairsUpTo(h: Hook, n: nat): (r: seq<(Pattern, Hook)>)
    requires n <= |h.patterns|
    ensures |r| == n
    ensures forall i :: 0 <= i < n ==> r[i] == (h.patterns[i], h)
  {
    if n == 0 then [] else PairsUpTo(h, n - 1) + [(h.patterns[n - 1], h)]
  }

  /** A raw hook whose triggers hold "*" is never filed under a verb. */
  lemma RawKeysOfCatchAll(hooks: seq<Hook>, j: string, x: Hook)
    requires x in KeyedAdds(hooks, RawKeysOf, j)
    ensures !IsCatchAll(x)
  {
    KeyedAddsIn(hooks, RawKeysOf, j, x);
  }

  lemma {:induction false} KeyedAddsIn<K(!new)>(hooks: seq<Hook>, keysOf: Hook -> seq<K>, j: K, x: Hook)
    requires x in KeyedAdds(hooks, keysOf, j)
    ensures j in keysOf(x)
  {
    var n := |hooks| - 1;
    if x in KeyedAdds(hooks[..n], keysOf, j) {
      KeyedAddsIn(hooks[..n], keysOf, j, x);
    } else {
      CopiesIn(hooks[n], keysOf(hooks[n]), j, x);
    }
  }

  lemma {:induction false} CopiesIn<K(!new)>(h: Hook, keys: seq<K>, j: K, x: Hook)
    requires x in Copies(h, keys, j)
    ensures x == h && j in keys
  {
    var n := |keys| - 1;
    if x in Copies(h, keys[..n], j) {
      CopiesIn(h, keys[..n], j, x);
    }
  }

  // ---------------------------------------------------------------------------------------------
  // Commands: alias -> hook, first registrant wins.

  /** Files `h` under each alias that is still free, in order. */
  function AddAliases(m: map<string, Hook>, h: Hook, aliases: seq<string>): map<string, Hook> {
    if |aliases| == 0 then m
    else
      var n := |aliases| - 1;
      var prev := AddAliases(m, h, aliases[..n]);
      if aliases[n] in prev then prev else prev[aliases[n] := h]
  }

  function RegisterCommands(m: map<string, Hook>, hooks: seq<Hook>): map<string, Hook> {
    if |hooks| == 0 then m
    else
      var n := |hooks| - 1;
      AddAliases(RegisterCommands(m, hooks[..n]), hooks[n], hooks[n].aliases)
  }

  /** The first of `hooks` that lists `alias`, if any. */
  function Owner(hooks: seq<Hook>, alias: string): (r: Option<Hook>)
    ensures r.Some? ==> r.value in hooks && alias in r.value.aliases
    ensures r.None? ==> forall h :: h in hooks ==> alias !in h.aliases
  {
    if |hooks| == 0 then None
    else
      var n := |hooks| - 1;
      var prev := Owner(hooks[..n], alias);
      assert forall h :: h in hooks ==> h in hooks[..n] || h == hooks[n];
      if prev.Some? then prev else if alias in hooks[n].aliases then Some(hooks[n]) else None
  }

  lemma {:induction false} OwnerIsFirst(hooks: seq<Hook>, alias: string, i: nat)
    requires i < |hooks| && alias in hooks[i].aliases
    requires forall k :: 0 <= k < i ==> alias !in hooks[k].aliases
    ensures Owner(hooks, alias) == Some(hooks[i])
  {
    var n := |hooks| - 1;
    if i < n {
      OwnerIsFirst(hooks[..n], alias, i);
    } else {
      assert forall h :: h in hooks[..n] ==> alias !in h.aliases;
    }
  }

  lemma {:induction false} AddAliasesSpec(m: map<string, Hook>, h: Hook, aliases: seq<string>, a: string)
    ensures var r := AddAliases(m, h, aliases);
      && (a in r <==> a in m || a in aliases)
      && (a in m ==> r[a] == m[a])
      && (a !in m && a in aliases ==> r[a] == h)
  {
    if |aliases| > 0 {
      var n := |aliases| - 1;
      AddAliasesSpec(m, h, aliases[..n], a);
      assert a in aliases <==> a in aliases[..n] || a == aliases[n];
    }
  }

  /** The alias table after registration: old aliases keep their hook (first registrant wins),
      and a free alias goes to the first new hook that lists it. */
  lemma {:induction false} RegisterCommandsSpec(m: map<string, Hook>, hooks: seq<Hook>, a: string)
    ensures var r := RegisterCommands(m, hooks);
      && (a in r <==> a in m || Owner(hooks, a).Some?)
      && (a in m ==> r[a] == m[a])
      && (a !in m && Owner(hooks, a).Some? ==> r[a] == Owner(hooks, a).value)
  {
    if |hooks| > 0 {
      var n := |hooks| - 1;
      RegisterCommandsSpec(m, hooks[..n], a);
      AddAliasesSpec(RegisterCommands(m, hooks[..n]), hooks[n], hooks[n].aliases, a);
    }
  }

  /** Drops each alias of `h` that currently maps to `h` itself. */
  function DropAliases(m: map<string, Hook>, h: Hook, aliases: seq<string>): map<string, Hook> {
    if |aliases| == 0 then m
    else
      var n := |aliases| - 1;
      var prev := DropAliases(m, h, aliases[..n]);
      if aliases[n] in prev && prev[aliases[n]] == h then prev - {aliases[n]} else prev
  }

  function UnregisterCommands(m: map<string, Hook>, hooks: seq<Hook>): map<string, Hook> {
    if |hooks| == 0 then m
    else
      var n := |hooks| - 1;
      DropAliases(UnregisterCommands(m, hooks[..n]), hooks[n], hooks[n].aliases)
  }

  /** An alias is owned by `hooks` when it maps to one of them that lists it. */
  predicate OwnedBy(m: map<string, Hook>, hooks: seq<Hook>, a: string)
    requires a in m
  {
    m[a] in hooks && a in m[a].aliases
  }

  lemma {:induction false} DropAliasesSpec(m: map<string, Hook>, h: Hook, aliases: seq<string>, a: string)
    ensures var r := DropAliases(m, h, aliases);
      && (a in r <==> a in m && !(m[a] == h && a in aliases))
      && (a in r ==> r[a] == m[a])
  {
    if |aliases| > 0 {
      var n := |aliases| - 1;
      DropAliasesSpec(m, h, aliases[..n], a);
      assert a in aliases <==> a in aliases[..n] || a == aliases[n];
    }
  }

  /** Unregistration deletes exactly the aliases that map to one of the unregistered hooks (and
      that hook lists them); every other alias keeps its hook. */
  lemma {:induction false} UnregisterCommandsSpec(m: map<string, Hook>, hooks: seq<Hook>, a: string)
    ensures var r := UnregisterCommands(m, hooks);
      && (a in r <==> a in m && !OwnedBy(m, hooks, a))
      && (a in r ==> r[a] == m[a])
  {
    if |hooks| > 0 {
      var n := |hooks| - 1;
      UnregisterCommandsSpec(m, hooks[..n], a);
      DropAliasesSpec(UnregisterCommands(m, hooks[..n]), hooks[n], hooks[n].aliases, a);
      assert forall g :: g in hooks <==> g in hooks[..n] || g == hooks[n];
    }
  }

  /** No alias of `m` maps to one of `hooks`. */
  predicate CommandsFresh(m: map<string, Hook>, hooks: seq<Hook>) {
    forall a :: a in m ==> m[a] !in hooks
  }

  lemma CommandsRoundTrip(m: map<string, Hook>, hooks: seq<Hook>)
    requires CommandsFresh(m, hooks)
    ensures UnregisterCommands(RegisterCommands(m, hooks), hooks) == m
  {
    var r := RegisterCommands(m, hooks);
    var u := UnregisterCommands(r, hooks);
    forall a ensures (a in u <==> a in m) && (a in u ==> u[a] == m[a]) {
      RegisterCommandsSpec(m, hooks, a);
      UnregisterCommandsSpec(r, hooks, a);
    }
    assert u.Keys == m.Keys;
  }

  // ---------------------------------------------------------------------------------------------
  // Whole plugins.

  /** Registration of plugin `p` (lines 160-203): the plugin is recorded with its startup hooks
      dropped, then its event, command, raw, regex and sieve hooks are filed. */
  function Register(t: Tables, p: Plugin): (r: Tables)
    ensures r.plugins.Keys == t.plugins.Keys + {p.filePath}
    ensures r.plugins[p.filePath] == p.(onStart := [])
    ensures forall q :: q in t.plugins && q != p.filePath ==> r.plugins[q] == t.plugins[q]
  {
    Tables(
      t.plugins[p.filePath := p.(onStart := [])],
      RegisterCommands(t.commands, p.commands),
      RegisterKeyed(t.rawTriggers, p.rawHooks, RawKeysOf),
      t.catchAll + Contributions(p.rawHooks, CatchAllItem),
      RegisterKeyed(t.eventTypeHooks, p.events, TypesOf),
      t.regexHooks + Contributions(p.regexes, RegexItems),
      t.sieves + p.sieves)
  }

  /** Unregistration of the plugin loaded from `path` (lines 227-263). */
  function Unregister(t: Tables, path: string): (r: Tables)
    requires path in t.plugins
    ensures r.plugins.Keys == t.plugins.Keys - {path}
    ensures forall q :: q in r.plugins ==> r.plugins[q] == t.plugins[q]
  {
    var p := t.plugins[path];
    Tables(
      t.plugins - {path},
      UnregisterCommands(t.commands, p.commands),
      UnregisterKeyed(t.rawTriggers, p.rawHooks, RawKeysOf),
      RemoveEach(t.catchAll, Contributions(p.rawHooks, CatchAllItem)),
      UnregisterKeyed(t.eventTypeHooks, p.events, TypesOf),
      RemoveEach(t.regexHooks, Contributions(p.regexes, RegexItems)),
      RemoveEach(t.sieves, p.sieves))
  }

  /** `j in keys` gives at least one copy of `h` under `j`. */
  lemma {:induction false} CopiesHas<K(!new)>(h: Hook, keys: seq<K>, j: K)
    requires j in keys
    ensures h in Copies(h, keys, j)
  {
    var n := |keys| - 1;
    if keys[n] != j {
      assert j in keys[..n];
      CopiesHas(h, keys[..n], j);
    }
  }

  /** A hook is filed under every one of its keys. */
  lemma {:induction false} KeyedAddsHas<K(!new)>(hooks: seq<Hook>, keysOf: Hook -> seq<K>, j: K, x: Hook)
    requires x in hooks && j in keysOf(x)
    ensures x in KeyedAdds(hooks, keysOf, j)
  {
    var n := |hooks| - 1;
    if x == hooks[n] {
      CopiesHas(x, keysOf(x), j);
    } else {
      assert x in hooks[..n];
      KeyedAddsHas(hooks[..n], keysOf, j, x);
    }
  }

  /** Every item a hook contributes is appended. */
  lemma {:induction false} ContributionsHas<T>(hooks: seq<Hook>, itemsOf: Hook -> seq<T>, h: Hook, x: T)
    requires h in hooks && x in itemsOf(h)
    ensures x in Contributions(hooks, itemsOf)
  {
    var n := |hooks| - 1;
    if h != hooks[n] {
      assert h in hooks[..n];
      ContributionsHas(hooks[..n], itemsOf, h, x);
    }
  }

  /** Registration files every hook of the plugin: an event hook under each of its types, a
      catch-all raw hook in the catch-all list and any other raw hook under each of its verbs, a
      regex hook once per pattern, a sieve in the sieve list; each alias of a command hook is
      taken afterwards, and an alias taken before keeps its hook. */
  lemma RegisterFiles(t: Tables, p: Plugin, h: Hook, verb: string, et: EventType, pat: Pattern, a: string)
    ensures var r := Register(t, p);
      && (h in p.events && et in h.types ==> h in View(r.eventTypeHooks, et))
      && (h in p.rawHooks && IsCatchAll(h) ==> h in r.catchAll)
      && (h in p.rawHooks && !IsCatchAll(h) && verb in h.triggers ==> h in View(r.rawTriggers, verb))
      && (h in p.regexes && pat in h.patterns ==> (pat, h) in r.regexHooks)
      && (h in p.sieves ==> h in r.sieves)
      && (h in p.commands && a in h.aliases ==> a in r.commands)
      && (a in t.commands ==> a in r.commands && r.commands[a] == t.commands[a])
  {
    var r := Register(t, p);
    if h in p.events && et in h.types {
      RegisterKeyedView(t.eventTypeHooks, p.events, TypesOf, et);
      KeyedAddsHas(p.events, TypesOf, et, h);
    }
    if h in p.rawHooks && IsCatchAll(h) {
      ContributionsHas(p.rawHooks, CatchAllItem, h, h);
    }
    if h in p.rawHooks && !IsCatchAll(h) && verb in h.triggers {
      RegisterKeyedView(t.rawTriggers, p.rawHooks, RawKeysOf, verb);
      KeyedAddsHas(p.rawHooks, RawKeysOf, verb, h);
    }
    if h in p.regexes && pat in h.patterns {
      var i :| 0 <= i < |h.patterns| && h.patterns[i] == pat;
      assert RegexItems(h)[i] == (pat, h);
      ContributionsHas(p.regexes, RegexItems, h, (pat, h));
    }
    RegisterCommandsSpec(t.commands, p.commands, a);
    if h in p.commands && a in h.aliases {
      assert Owner(p.commands, a).Some?;
    }
  }

  /** `load_plugin` first unloads whatever was loaded from the same path. */
  function UnloadIfLoaded(t: Tables, path: string): (r: Tables)
    ensures path !in r.plugins
    ensures path !in t.plugins ==> r == t
  {
    if path in t.plugins then Unregister(t, path) else t
  }

  /** The structural invariant of the tables: no empty list is kept under a key, a catch-all raw
      hook is never filed under a verb and only catch-all hooks are in the catch-all list, and
      each plugin is filed under its own path. */
  predicate WellFormed(t: Tables) {
    && NoEmptyLists(t.rawTriggers)
    && NoEmptyLists(t.eventTypeHooks)
    && (forall k, h :: k in t.rawTriggers && h in t.rawTriggers[k] ==> !IsCatchAll(h))
    && (forall h :: h in t.catchAll ==> IsCatchAll(h))
    && (forall path :: path in t.plugins ==> t.plugins[path].filePath == path)
  }

  /** None of the plugin's hooks is already in the tables: they are new objects. */
  predicate Fresh(t: Tables, p: Plugin) {
    && CommandsFresh(t.commands, p.commands)
    && KeyedFresh(t.rawTriggers, p.rawHooks)
    && (forall h :: h in t.catchAll ==> h !in p.rawHooks)
    && KeyedFresh(t.eventTypeHooks, p.events)
    && (forall e :: e in t.regexHooks ==> e.1 !in p.regexes)
    && (forall h :: h in t.sieves ==> h !in p.sieves)
  }

  lemma RegisterWellFormed(t: Tables, p: Plugin)
    requires WellFormed(t)
    ensures WellFormed(Register(t, p))
  {
    var r := Register(t, p);
    RegisterKeyedNoEmpty(t.rawTriggers, p.rawHooks, RawKeysOf);
    RegisterKeyedNoEmpty(t.eventTypeHooks, p.events, TypesOf);
    forall k, h | k in r.rawTriggers && h in r.rawTriggers[k] ensures !IsCatchAll(h) {
      RegisterKeyedView(t.rawTriggers, p.rawHooks, RawKeysOf, k);
      if h !in View(t.rawTriggers, k) {
        RawKeysOfCatchAll(p.rawHooks, k, h);
      }
    }
    forall h | h in r.catchAll ensures IsCatchAll(h) {
      if h !in t.catchAll {
        ContributionsFrom(p.rawHooks, CatchAllItem, h);
      }
    }
  }

  lemma UnregisterWellFormed(t: Tables, path: string)
    requires WellFormed(t) && path in t.plugins
    ensures WellFormed(Unregister(t, path))
  {
    var p := t.plugins[path];
    var r := Unregister(t, path);
    UnregisterKeyedNoEmpty(t.rawTriggers, p.rawHooks, RawKeysOf);
    UnregisterKeyedNoEmpty(t.eventTypeHooks, p.events, TypesOf);
    forall k, h | k in r.rawTriggers && h in r.rawTriggers[k] ensures !IsCatchAll(h) {
      UnregisterKeyedView(t.rawTriggers, p.rawHooks, RawKeysOf, k);
      RemoveEachSubset(View(t.rawTriggers, k), KeyedAdds(p.rawHooks, RawKeysOf, k), h);
    }
    forall h | h in r.catchAll ensures IsCatchAll(h) {
      RemoveEachSubset(t.catchAll, Contributions(p.rawHooks, CatchAllItem), h);
    }
  }

  /** Loading a plugin whose path is not loaded and whose hooks are new, then unloading it,
      gives back exactly the tables from before, list order and empty keys included. */
  lemma {:induction false} RegisterUnregister(t: Tables, p: Plugin)
    requires WellFormed(t) && p.filePath !in t.plugins && Fresh(t, p)
    ensures p.filePath in Register(t, p).plugins
    ensures Unregister(Register(t, p), p.filePath) == t
  {
    var r := Register(t, p);
    assert r.plugins[p.filePath] == p.(onStart := []);
    assert r.plugins - {p.filePath} == t.plugins;
    CommandsRoundTrip(t.commands, p.commands);
    KeyedRoundTrip(t.rawTriggers, p.rawHooks, RawKeysOf);
    KeyedRoundTrip(t.eventTypeHooks, p.events, TypesOf);
    forall x | x in Contributions(p.rawHooks, CatchAllItem) ensures x !in t.catchAll {
      ContributionsFrom(p.rawHooks, CatchAllItem, x);
      var h :| h in p.rawHooks && x in CatchAllItem(h);
    }
    ListRoundTrip(t.catchAll, Contributions(p.rawHooks, CatchAllItem));
    forall x | x in Contributions(p.regexes, RegexItems) ensures x !in t.regexHooks {
      ContributionsFrom(p.regexes, RegexItems, x);
      var h :| h in p.regexes && x in RegexItems(h);
    }
    ListRoundTrip(t.regexHooks, Contributions(p.regexes, RegexItems));
    ListRoundTrip(t.sieves, p.sieves);
  }

  /** Unloading plugin `path` leaves every other plugin's entries where they were: an alias
      survives unless it maps to a hook of this plugin, and a hook of another plugin stays under
      every verb and event type and in every list it was in. */
  lemma UnregisterKeepsOthers(t: Tables, path: string, a: string, g: Hook, verb: string, et: EventType, pat: Pattern)
    requires path in t.plugins
    ensures var p := t.plugins[path]; var r := Unregister(t, path);
      && (a in t.commands && t.commands[a] !in p.commands ==> a in r.commands && r.commands[a] == t.commands[a])
      && (g !in p.rawHooks ==> (g in View(r.rawTriggers, verb) <==> g in View(t.rawTriggers, verb)))
      && (g !in p.rawHooks ==> (g in r.catchAll <==> g in t.catchAll))
      && (g !in p.events ==> (g in View(r.eventTypeHooks, et) <==> g in View(t.eventTypeHooks, et)))
      && (g !in p.regexes ==> ((pat, g) in r.regexHooks <==> (pat, g) in t.regexHooks))
      && (g !in p.sieves ==> (g in r.sieves <==> g in t.sieves))
  {
    var p := t.plugins[path];
    UnregisterCommandsSpec(t.commands, p.commands, a);
    if g !in p.rawHooks {
      UnregisterKeyedKeeps(t.rawTriggers, p.rawHooks, RawKeysOf, verb, g);
      if g in Contributions(p.rawHooks, CatchAllItem) {
        ContributionsFrom(p.rawHooks, CatchAllItem, g);
      }
      RemoveEachKeeps(t.catchAll, Contributions(p.rawHooks, CatchAllItem), g);
    }
    if g !in p.events {
      UnregisterKeyedKeeps(t.eventTypeHooks, p.events, TypesOf, et, g);
    }
    if g !in p.regexes {
      if (pat, g) in Contributions(p.regexes, RegexItems) {
        ContributionsFrom(p.regexes, RegexItems, (pat, g));
      }
      RemoveEachKeeps(t.regexHooks, Contributions(p.regexes, RegexItems), (pat, g));
    }
    if g !in p.sieves {
      RemoveEachKeeps(t.sieves, p.sieves, g);
    }
  }

  /** Reloading a plugin replaces it: loading a new copy from the path of a copy loaded onto `t`
      gives the tables that loading the new copy onto `t` alone gives. */
  lemma ReloadReplaces(t: Tables, first: Plugin, second: Plugin)
    requires WellFormed(t) && first.filePath !in t.plugins && Fresh(t, first)
    requires second.filePath == first.filePath
    ensures Register(UnloadIfLoaded(Register(t, first), second.filePath), second) == Register(t, second)
  {
    RegisterUnregister(t, first);
  }

  /** Loading the same plugin again leaves the tables as one load leaves them. */
  lemma ReloadIdempotent(t: Tables, p: Plugin)
    requires WellFormed(t) && p.filePath !in t.plugins && Fresh(t, p)
    ensures Register(UnloadIfLoaded(Register(t, p), p.filePath), p) == Register(t, p)
  {
    ReloadReplaces(t, p, p);
  }
}
