/** Hook descriptors of the plugin manager: the seven hook types, the immutable hook record, the
    plugin unit built from a loaded module, and the small pure helpers on them. */
module Hooks {
  import opened Wrappers
  import opened Events
  import Seqs

  datatype HookType = OnStart | OnStop | Sieve | Event | Regex | Command | IrcRaw

  /** Every hook type, in declaration order. */
  const AllHookTypes: seq<HookType> := [OnStart, OnStop, Sieve, Event, Regex, Command, IrcRaw]

  lemma AllHookTypesComplete(t: HookType)
    ensures t in AllHookTypes
  {
  }

  /** A compiled regular expression, identified by its source text. */
  type Pattern = string

  /** A value an event exposes under an attribute name, as handed to a handler. */
  datatype Value = Str(s: string) | Num(n: int) | Ref(id: nat)

  /** One hook. `id` stands for the identity of the Python object: two hooks are the same hook
      exactly when they are equal. The fields after `runFirst` belong to one kind each and are
      empty for the others: `aliases`, `doc` and `autoHelp` to command hooks, `patterns` to regex
      hooks, `triggers` to raw hooks and `types` to event hooks. */
  datatype Hook = Hook(
    id: nat,
    kind: HookType,
    pluginTitle: string,
    functionName: string,
    requiredArgs: seq<string>,
    threaded: bool,
    permissions: seq<string>,
    singleThread: bool,
    runFirst: bool,
    aliases: seq<string>,
    doc: Option<string>,
    autoHelp: bool,
    patterns: seq<Pattern>,
    triggers: seq<string>,
    types: seq<EventType>)

  /** `Hook.description`: "plugin:function". */
  function Description(h: Hook): (d: string)
    ensures |d| == |h.pluginTitle| + 1 + |h.functionName|
    ensures d[|h.pluginTitle|] == ':'
    ensures d[..|h.pluginTitle|] == h.pluginTitle && d[|h.pluginTitle| + 1..] == h.functionName
  {
    h.pluginTitle + ":" + h.functionName
  }

  /** The plugin title is what precedes the first ':' of the description, provided it has none. */
  lemma DescriptionTitle(h: Hook)
    requires ':' !in h.pluginTitle
    ensures var d := Description(h);
      (forall i :: 0 <= i < |h.pluginTitle| ==> d[i] != ':') && d[..|h.pluginTitle|] == h.pluginTitle
  {
  }

  /** `RawHook.is_catch_all`. */
  predicate IsCatchAll(h: Hook) {
    "*" in h.triggers
  }

  /** The key of the hook's exclusivity lock. */
  function LockKey(h: Hook): (string, string) {
    (h.pluginTitle, h.functionName)
  }

  /** `CommandHook.__init__`: the alias set turned into a list with the main name moved to the
      front. `list.remove` raises when the main name is not among the aliases (`None` here). */
  function AliasOrder(name: string, aliasSet: seq<string>): (r: Option<seq<string>>)
    ensures r.Some? <==> name in aliasSet
    ensures r.Some? ==> |r.value| == |aliasSet| && r.value[0] == name
    ensures r.Some? ==> multiset(r.value) == multiset(aliasSet)
    ensures r.Some? && Seqs.Distinct(aliasSet) ==> name !in r.value[1..]
  {
    if name !in aliasSet then None
    else
      var rest := Seqs.RemoveFirst(aliasSet, name);
      Seqs.RemoveFirstMultiset(aliasSet, name);
      assert Seqs.Distinct(aliasSet) ==> name !in rest by {
        if Seqs.Distinct(aliasSet) {
          Seqs.RemoveFirstDistinct(aliasSet, name);
        }
      }
      assert ([name] + rest)[1..] == rest;
      Some([name] + rest)
  }

  /** One (hook type, hook) entry found on a function of the module being scanned. `find_hooks`
      builds the hook with the class of its type, so the hook's own kind is its tag. */
  datatype Tagged = Tagged(kind: HookType, hook: Hook)

  /** Every entry's hook was built for the type it is filed under. */
  predicate KindsAgree(entries: seq<Tagged>) {
    forall k :: 0 <= k < |entries| ==> entries[k].hook.kind == entries[k].kind
  }

  /** The hooks of one type among the scanned entries, in scan order. */
  function OfType(entries: seq<Tagged>, t: HookType): (hs: seq<Hook>)
    ensures |hs| <= |entries|
    ensures forall h :: h in hs ==> exists e :: e in entries && e.kind == t && e.hook == h
    ensures forall e :: e in entries && e.kind == t ==> e.hook in hs
    ensures KindsAgree(entries) ==> forall h :: h in hs ==> h.kind == t
  {
    if |entries| == 0 then []
    else
      var n := |entries| - 1;
      var prev := OfType(entries[..n], t);
      assert forall e :: e in entries ==> e in entries[..n] || e == entries[n];
      if entries[n].kind == t then prev + [entries[n].hook] else prev
  }

  /** Filing keeps scan order: the hooks of a type among two runs of entries are those of the first
      run, then those of the second. */
  lemma {:induction false} OfTypeAppend(a: seq<Tagged>, b: seq<Tagged>, t: HookType)
    ensures OfType(a + b, t) == OfType(a, t) + OfType(b, t)
    decreases |b|
  {
    if |b| == 0 {
      assert a + b == a;
    } else {
      var n := |b| - 1;
      var front, e := b[..n], b[n];
      assert a + b == (a + front) + [e] && b == front + [e];
      OfTypeSnoc(a + front, e, t);
      OfTypeSnoc(front, e, t);
      OfTypeAppend(a, front, t);
      Seqs.AppendAssoc(OfType(a, t), OfType(front, t), if e.kind == t then [e.hook] else []);
    }
  }

  lemma OfTypeSnoc(entries: seq<Tagged>, e: Tagged, t: HookType)
    ensures OfType(entries + [e], t) == OfType(entries, t) + (if e.kind == t then [e.hook] else [])
  {
    assert (entries + [e])[..|entries|] == entries;
  }

  /** One entry is filed under its own type, once, and under no other. */
  lemma OfTypeOne(e: Tagged, t: HookType)
    ensures OfType([e], t) == if e.kind == t then [e.hook] else []
  {
    assert [e][..0] == [];
  }

  /** `find_hooks`: groups the scanned entries by hook type; every type gets a list. */
  method FindHooks(entries: seq<Tagged>) returns (hooks: map<HookType, seq<Hook>>)
    ensures forall t :: t in hooks
    ensures forall t :: hooks[t] == OfType(entries, t)
  {
    hooks := map[];
    for k := 0 to |AllHookTypes|
      invariant forall t :: t in hooks <==> t in AllHookTypes[..k]
      invariant forall t :: t in hooks ==> hooks[t] == []
    {
      hooks := hooks[AllHookTypes[k] := []];
    }
    assert forall t :: t in hooks by {
      forall t ensures t in hooks {
        AllHookTypesComplete(t);
        assert AllHookTypes[..|AllHookTypes|] == AllHookTypes;
      }
    }
    for i := 0 to |entries|
      invariant forall t :: t in hooks
      invariant forall t :: hooks[t] == OfType(entries[..i], t)
    {
      assert entries[..i + 1][..i] == entries[..i];
      var e := entries[i];
      hooks := hooks[e.kind := hooks[e.kind] + [e.hook]];
    }
    assert entries[..|entries|] == entries;
  }

  /** A loaded plugin file and the hooks found in it, one list per hook type. */
  datatype Plugin = Plugin(
    filePath: string,
    title: string,
    onStart: seq<Hook>,
    onStop: seq<Hook>,
    events: seq<Hook>,
    sieves: seq<Hook>,
    regexes: seq<Hook>,
    commands: seq<Hook>,
    rawHooks: seq<Hook>)

  /** Each list of the plugin holds one hook type's hooks. */
  predicate ListsOfType(p: Plugin) {
    && (forall h :: h in p.onStart ==> h.kind == OnStart)
    && (forall h :: h in p.onStop ==> h.kind == OnStop)
    && (forall h :: h in p.events ==> h.kind == Event)
    && (forall h :: h in p.sieves ==> h.kind == Sieve)
    && (forall h :: h in p.regexes ==> h.kind == Regex)
    && (forall h :: h in p.commands ==> h.kind == Command)
    && (forall h :: h in p.rawHooks ==> h.kind == IrcRaw)
  }

  /** `Plugin.__init__`: the unit built from a path, its title and the scanned module; each of its
      seven lists is the scanned hooks of one type, in scan order, and when every hook was built for
      its tag each list holds hooks of its own type only. */
  function MakePlugin(filePath: string, title: string, entries: seq<Tagged>): (p: Plugin)
    ensures p.filePath == filePath && p.title == title
    ensures p.onStart == OfType(entries, OnStart) && p.onStop == OfType(entries, OnStop)
    ensures p.events == OfType(entries, Event) && p.sieves == OfType(entries, Sieve)
    ensures p.regexes == OfType(entries, Regex) && p.commands == OfType(entries, Command)
    ensures p.rawHooks == OfType(entries, IrcRaw)
    ensures KindsAgree(entries) ==> ListsOfType(p)
  {
    Plugin(filePath, title, OfType(entries, OnStart), OfType(entries, OnStop), OfType(entries, Event),
           OfType(entries, Sieve), OfType(entries, Regex), OfType(entries, Command), OfType(entries, IrcRaw))
  }
}
