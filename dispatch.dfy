/** What launching one hook on one event does: the sieve chain, the auto-help gate, the choice of
    the exclusivity lock, binding the handler's parameters from the event, running the handler and
    turning its return value into reply lines. Handlers and sieves are plugin code and come in as
    the functions of an `Env`. */
module Dispatch {
  import opened Wrappers
  import opened Hooks
  import Text

  /** An event as a handler sees it: its attributes by name, and its text ("" when it has none). */
  datatype Event = Event(attrs: map<string, Value>, text: string)

  /** What a handler returned: `None`, a list or tuple of items, or any other value (as `str(out)`). */
  datatype Output = NoValue | Items(items: seq<string>) | Scalar(s: string)

  /** A handler either raises or returns. */
  datatype HandlerResult = Raised | Returned(out: Output)

  /** The plugin code behind the hooks. `sieve` returns `None` when the sieve raised or returned
      `None`; `lifecycleEvent` is the event built for an on_start or on_stop hook. */
  datatype Env = Env(
    handler: (Hook, seq<Value>) -> HandlerResult,
    sieve: (Hook, Event) -> Option<Event>,
    lifecycleEvent: Hook -> Event)

  // ---------------------------------------------------------------------------------------------
  // Parameters.

  /** The handler's arguments: the event's attribute of each required name, in order, or `None`
      as soon as one is missing. */
  function Bind(names: seq<string>, attrs: map<string, Value>): (r: Option<seq<Value>>)
    ensures r.Some? <==> forall i :: 0 <= i < |names| ==> names[i] in attrs
    ensures r.Some? ==> |r.value| == |names| && forall i :: 0 <= i < |names| ==> r.value[i] == attrs[names[i]]
  {
    if |names| == 0 then Some([])
    else
      var n := |names| - 1;
      var prev := Bind(names[..n], attrs);
      if prev.None? then None
      else if names[n] in attrs then Some(prev.value + [attrs[names[n]]])
      else None
  }

  /** `_prepare_parameters`. */
  method PrepareParameters(h: Hook, e: Event) returns (params: Option<seq<Value>>)
    ensures params == Bind(h.requiredArgs, e.attrs)
    ensures params.None? <==> exists i :: 0 <= i < |h.requiredArgs| && h.requiredArgs[i] !in e.attrs
  {
    var names := h.requiredArgs;
    var values: seq<Value> := [];
    for i := 0 to |names|
      invariant Bind(names[..i], e.attrs) == Some(values)
    {
      assert names[..i + 1][..i] == names[..i];
      if names[i] in e.attrs {
        values := values + [e.attrs[names[i]]];
      } else {
        assert Bind(names[..i + 1], e.attrs).None?;
        BindMissing(names, e.attrs, i + 1);
        return None;
      }
    }
    assert names[..|names|] == names;
    return Some(values);
  }

  /** Once a prefix fails to bind, the whole list does. */
  lemma BindMissing(names: seq<string>, attrs: map<string, Value>, k: nat)
    requires k <= |names| && Bind(names[..k], attrs).None?
    ensures Bind(names, attrs).None?
  {
    var i :| 0 <= i < k && names[..k][i] !in attrs;
    assert names[i] !in attrs;
  }

  // ---------------------------------------------------------------------------------------------
  // Output.

  /** The arguments passed to `event.reply`, or `None` when it is not called: a list or tuple is
      replied item by item, anything else as the lines of its string. */
  function Replies(out: Output): (r: Option<seq<string>>)
    ensures r.None? <==> out.NoValue?
    ensures out.Items? ==> r == Some(out.items)
    ensures out.Scalar? ==> r.Some? && Text.Join(r.value, '\n') == out.s
    ensures out.Scalar? ==> r.Some? && |r.value| >= 1 && forall k :: 0 <= k < |r.value| ==> '\n' !in r.value[k]
  {
    match out
    case NoValue => None
    case Items(items) => Some(items)
    case Scalar(s) => Text.JoinSplit(s, '\n'); Some(Text.Split(s, '\n'))
  }

  /** The result of `_execute_hook`: whether it succeeded, whether the handler was called, and the
      reply it produced. */
  datatype Execution = Execution(success: bool, called: bool, reply: Option<seq<string>>)

  /** `_execute_hook`: binding failure and a raising handler are failures; otherwise the handler's
      output is replied. */
  function Execute(h: Hook, e: Event, env: Env): (r: Execution)
    ensures r.called <==> Bind(h.requiredArgs, e.attrs).Some?
    ensures r.success <==> r.called && env.handler(h, Bind(h.requiredArgs, e.attrs).value).Returned?
    ensures r.reply.Some? ==> r.success
    ensures r.success ==> r.reply == Replies(env.handler(h, Bind(h.requiredArgs, e.attrs).value).out)
  {
    var params := Bind(h.requiredArgs, e.attrs);
    if params.None? then Execution(false, false, None)
    else
      match env.handler(h, params.value)
      case Raised => Execution(false, true, None)
      case Returned(out) => Execution(true, true, Replies(out))
  }

  // ---------------------------------------------------------------------------------------------
  // Sieves.

  /** Where the sieve chain ended: the event it produced (`None` once a sieve rejected it) and how
      many sieves ran. */
  datatype SieveRun = SieveRun(result: Option<Event>, ran: nat)

  /** Runs `sieves` in order, each on the previous one's event, stopping at the first rejection. */
  function RunSieves(sieves: seq<Hook>, e: Event, env: Env): (r: SieveRun)
    ensures r.ran <= |sieves|
    ensures r.result.Some? ==> r.ran == |sieves|
    ensures r.result.None? ==> r.ran >= 1
  {
    if |sieves| == 0 then SieveRun(Some(e), 0)
    else
      var n := |sieves| - 1;
      var prev := RunSieves(sieves[..n], e, env);
      if prev.result.None? then prev
      else SieveRun(env.sieve(sieves[n], prev.result.value), n + 1)
  }

  /** A rejection comes from the last sieve that ran: every sieve before it passed the event on,
      and no sieve after it ran. */
  lemma {:induction false} RejectedByLast(sieves: seq<Hook>, e: Event, env: Env)
    requires RunSieves(sieves, e, env).result.None?
    ensures var k := RunSieves(sieves, e, env).ran - 1;
      var before := RunSieves(sieves[..k], e, env);
      before.result.Some? && before.ran == k && env.sieve(sieves[k], before.result.value).None?
  {
    var n := |sieves| - 1;
    var prev := RunSieves(sieves[..n], e, env);
    if prev.result.None? {
      RejectedByLast(sieves[..n], e, env);
      var k := prev.ran - 1;
      assert sieves[..n][..k] == sieves[..k];
      assert sieves[..n][k] == sieves[k];
    } else {
      assert sieves[..n] == sieves[..RunSieves(sieves, e, env).ran - 1];
    }
  }

  /** Once a prefix of the chain has rejected the event, the sieves after it change nothing. */
  lemma {:induction false} RejectionFinal(sieves: seq<Hook>, e: Event, env: Env, k: nat)
    requires k <= |sieves| && RunSieves(sieves[..k], e, env).result.None?
    ensures RunSieves(sieves, e, env) == RunSieves(sieves[..k], e, env)
    decreases |sieves|
  {
    if k < |sieves| {
      var n := |sieves| - 1;
      assert sieves[..n][..k] == sieves[..k];
      RejectionFinal(sieves[..n], e, env, k);
    } else {
      assert sieves[..k] == sieves;
    }
  }

  /** on_start and on_stop hooks bypass the sieves. */
  predicate SkipsSieves(h: Hook) {
    h.kind == OnStart || h.kind == OnStop
  }

  /** The sieve stage of `launch`. */
  function Sieved(sieves: seq<Hook>, h: Hook, e: Event, env: Env): (r: SieveRun)
    ensures SkipsSieves(h) ==> r == SieveRun(Some(e), 0)
    ensures !SkipsSieves(h) ==> r == RunSieves(sieves, e, env)
  {
    if SkipsSieves(h) then SieveRun(Some(e), 0) else RunSieves(sieves, e, env)
  }

  /** A command hook with auto-help and a docstring, called without text, only sends its doc. */
  predicate WantsHelp(h: Hook, e: Event) {
    h.kind == Command && h.autoHelp && e.text == "" && h.doc.Some?
  }

  // ---------------------------------------------------------------------------------------------
  // launch.

  /** Everything one `launch` does: its boolean result, how many sieves ran, whether the doc was
      sent as a notice, whether the handler was called, what was replied, and the key of the lock
      taken (a single-instance hook only). */
  datatype Outcome = Outcome(
    success: bool,
    sievesRun: nat,
    helpNotice: bool,
    called: bool,
    reply: Option<seq<string>>,
    lock: Option<(string, string)>)

  /** `PluginManager.launch` on the given sieve list. */
  function LaunchOutcome(sieves: seq<Hook>, h: Hook, e: Event, env: Env): (o: Outcome)
    ensures SkipsSieves(h) ==> o.sievesRun == 0
    ensures o.sievesRun <= |sieves|
    ensures o.success ==> o.called && !o.helpNotice
    ensures o.helpNotice ==> !o.called && h.kind == Command
    ensures var s := Sieved(sieves, h, e, env);
      o.helpNotice <==> s.result.Some? && WantsHelp(h, s.result.value)
    ensures o.lock.Some? ==> h.singleThread && o.lock.value == LockKey(h)
    ensures o.called ==> o.lock.Some? == h.singleThread
    ensures o.sievesRun == Sieved(sieves, h, e, env).ran
    ensures var s := Sieved(sieves, h, e, env);
      s.result.Some? && !WantsHelp(h, s.result.value) ==>
        var x := Execute(h, s.result.value, env);
        (o.success, o.called, o.reply) == (x.success, x.called, x.reply) && (o.lock.Some? <==> h.singleThread)
    ensures var s := Sieved(sieves, h, e, env);
      s.result.None? || WantsHelp(h, s.result.value) ==>
        !o.success && !o.called && o.reply.None? && o.lock.None?
  {
    var s := Sieved(sieves, h, e, env);
    if s.result.None? then Outcome(false, s.ran, false, false, None, None)
    else
      var ev := s.result.value;
      if WantsHelp(h, ev) then Outcome(false, s.ran, true, false, None, None)
      else
        var x := Execute(h, ev, env);
        Outcome(x.success, s.ran, false, x.called, x.reply, if h.singleThread then Some(LockKey(h)) else None)
  }

  /** `launch` succeeds exactly when the sieves pass the event on, the auto-help gate does not
      fire, every required argument is on the event, and the handler returns. */
  lemma LaunchSuccess(sieves: seq<Hook>, h: Hook, e: Event, env: Env)
    ensures var o := LaunchOutcome(sieves, h, e, env);
      var s := Sieved(sieves, h, e, env);
      o.success <==>
        && s.result.Some?
        && !WantsHelp(h, s.result.value)
        && Bind(h.requiredArgs, s.result.value.attrs).Some?
        && env.handler(h, Bind(h.requiredArgs, s.result.value.attrs).value).Returned?
  {
  }

  /** A rejected event reaches nothing: no help, no handler, no reply, no lock. */
  lemma LaunchRejected(sieves: seq<Hook>, h: Hook, e: Event, env: Env)
    requires !SkipsSieves(h) && RunSieves(sieves, e, env).result.None?
    ensures var o := LaunchOutcome(sieves, h, e, env);
      !o.success && !o.helpNotice && !o.called && o.reply.None? && o.lock.None?
      && o.sievesRun == RunSieves(sieves, e, env).ran
  {
  }

  /** A hook that bypasses the sieves sees the event it was launched with, whatever the sieves. */
  lemma LaunchLifecycle(sieves1: seq<Hook>, sieves2: seq<Hook>, h: Hook, e: Event, env: Env)
    requires SkipsSieves(h)
    ensures LaunchOutcome(sieves1, h, e, env) == LaunchOutcome(sieves2, h, e, env)
  {
  }

  /** Every sieve passes the event on unchanged: the hook runs on the event as launched. */
  lemma {:induction false} TransparentSieves(sieves: seq<Hook>, e: Event, env: Env)
    requires forall k :: 0 <= k < |sieves| ==> env.sieve(sieves[k], e) == Some(e)
    ensures RunSieves(sieves, e, env) == SieveRun(Some(e), |sieves|)
  {
    if |sieves| > 0 {
      var n := |sieves| - 1;
      TransparentSieves(sieves[..n], e, env);
    }
  }
}
