# Stratus / ObrBot core, modelled in Dafny

This project models the sequential logic at the centre of the Stratus IRC bot and of the ObrBot
plugin manager it grew from, with proofs about it:

- **Plugin manager** (`obrbot/plugin.py`). The routing tables are: plugins by path, commands by
  alias, raw hooks by IRC verb, catch-all raw hooks, event hooks by event type, (pattern, hook)
  regex entries, and sieves. Loading a plugin unloads the previous copy, runs the on_start hooks
  and then files every hook. Unloading removes exactly what loading filed. `launch` runs the sieve
  chain, applies the auto-help gate, takes the exclusivity lock, binds the handler's parameters by
  name, runs the handler and turns its return value into replies. The specification of the tables
  is the pure module `Registry`. The class `PluginManagers.PluginManager` updates its fields in
  loops proved against that specification. `Dispatch` holds `launch`'s pure parts, `Hooks` the
  hook records.
- **IRC protocol** (`stratus/irc/protocol.py`). The input buffer is split into CRLF-terminated
  lines. Each line is parsed into an event along the message grammar of section 2.3.1 of RFC 1459:
  optional prefix, command, middle parameters and a trailing parameter. The parse also produces
  the `nick!user@host` split of the sender, the event type, the content, CTCP unwrapping, channel
  and target (including the 353 names reply of section 6.2 of RFC 1459), and the PING answer. The
  outgoing line is truncated. The class `Protocol.IrcProtocol` keeps the buffer, and its loop is
  proved against the pure `Receive`. `Receive` in turn is proved to handle every complete line
  exactly once, in order.
- **Channel state** (`stratus/irc/state.py`). The class `ChannelState.Channel` holds the member
  table, keyed by the lowercased nick as the case-insensitive dictionary does. It also holds the
  bounded history and the topic. The model covers the `track_*` updates, mode letters, the names
  reply and the history decoder.
- **Engine routing** (`stratus/engine.py`). This covers `clean_name` and the recognition of a
  command in a message: prefix character, bare word in a private message, or the bot's nick with
  address marks. It also covers the hooks `Stratus.process` launches for an event and their split
  into the `run_first` batch and the rest.

Plugin code (handlers, sieves, the event built for an on_start hook) and the regular-expression
search of regex hooks enter as function-typed parameters. The wall clock enters as a number.

## Model

| member | source | states |
|---|---|---|
| Hooks.AllHookTypesComplete | obrbot/plugin.py:16-23 | `AllHookTypes` lists every one of the seven hook types |
| Hooks.Description | obrbot/plugin.py:455-457 | the description is the plugin title, a ':' at the title's length, then the function name |
| Hooks.DescriptionTitle | obrbot/plugin.py:455-457 | for a title without ':', the description's text before its first ':' is exactly the title |
| Hooks.AliasOrder | obrbot/plugin.py:484-487 | defined exactly when the main name is among the aliases (`list.remove` raises otherwise); the list is a permutation of the alias set with the main name at index 0; for a set without duplicates the main name occurs nowhere else |
| Hooks.OfType | obrbot/plugin.py:38-44 | the hooks of one type are exactly the scanned entries of that type; when every hook was built for its tag, all of them are of that type |
| Hooks.OfTypeAppend | obrbot/plugin.py:38-44 | the hooks of one type among two scans in turn are those of the first, then those of the second: order and multiplicity are those of the scan |
| Hooks.OfTypeOne | obrbot/plugin.py:38-44 | one scanned entry contributes its hook exactly when it has the type, once |
| Hooks.FindHooks | obrbot/plugin.py:26-49 | every hook type has a list, and each list holds that type's entries in scan order |
| Hooks.MakePlugin | obrbot/plugin.py:393-410 | the plugin keeps its path and title; each of its seven lists (on_start, on_stop, event, sieve, regex, command, raw) is the scanned hooks of that type in scan order; when every hook was built for its tag, each list holds hooks of its own type only |
| Seqs.RemoveFirst | obrbot/plugin.py:237 | `list.remove`: drops one element when present and changes nothing when absent |
| Seqs.RemoveFirstMultiset | obrbot/plugin.py:237 | removal takes exactly one copy of the element out of the multiset |
| Seqs.RemoveEachAppended | obrbot/plugin.py:254-256 | removing, in order, elements that were just appended and were not there before restores the list |
| Seqs.RemoveEachKeeps | obrbot/plugin.py:254-260 | removing other elements never removes or adds an element |
| Registry.AppendAtView | obrbot/plugin.py:165-168 | appending under a key (creating the list when the key is new) extends that key's list by the hook and no other |
| Registry.RemoveAtView | obrbot/plugin.py:241-243 | removing under a key (deleting the key once its list is empty) removes the hook's first copy from that key's list and leaves the other keys |
| Registry.RegisterKeyedView | obrbot/plugin.py:163-168 | after filing a list of hooks, each key's list is its old list followed by the hooks filed under it, in order |
| Registry.UnregisterKeyedView | obrbot/plugin.py:235-251 | after unfiling, each key's list is its old list with those hooks removed one at a time |
| Registry.RegisterKeyedNoEmpty | obrbot/plugin.py:163-168 | filing never leaves an empty list under a key |
| Registry.UnregisterKeyedNoEmpty | obrbot/plugin.py:246-251 | unfiling deletes a key whose list became empty |
| Registry.KeyedRoundTrip | obrbot/plugin.py:246-251 | unfiling hooks that were just filed, and were not filed before, restores the keyed table exactly |
| Registry.UnregisterKeyedKeeps | obrbot/plugin.py:235-251 | a hook that is not being unfiled is under a key after unfiling exactly when it was before |
| Registry.RawKeysOfCatchAll | obrbot/plugin.py:183-191 | a catch-all raw hook is never filed under a verb |
| Registry.PairsUpTo | obrbot/plugin.py:195-197 | a regex hook contributes one (pattern, hook) entry per pattern, in order |
| Registry.ContributionsFrom | obrbot/plugin.py:183-197 | every entry added to a list comes from one of the plugin's hooks |
| Registry.ListRoundTrip | obrbot/plugin.py:254-260 | appending new items to a list and then removing them restores it |
| Registry.Owner | obrbot/plugin.py:172-179 | the first of the plugin's command hooks that lists an alias, or none when no hook does |
| Registry.OwnerIsFirst | obrbot/plugin.py:172-179 | the owner of an alias is the earliest hook that lists it |
| Registry.AddAliasesSpec | obrbot/plugin.py:173-179 | one hook's aliases: an alias already taken keeps its hook, and a free alias gets this hook |
| Registry.RegisterCommandsSpec | obrbot/plugin.py:172-180 | first registrant wins: a taken alias keeps its hook; a free alias goes to the first new hook that lists it; the rejected hook's other aliases still register |
| Registry.DropAliasesSpec | obrbot/plugin.py:229-232 | one hook's aliases are deleted only where they map to that hook; every other entry keeps its hook |
| Registry.UnregisterCommandsSpec | obrbot/plugin.py:228-232 | exactly the aliases mapping to one of the unloaded plugin's hooks, which lists them, are deleted; another plugin's command under a shared alias survives |
| Registry.CommandsRoundTrip | obrbot/plugin.py:228-232 | registering fresh command hooks and then unregistering them restores the alias table |
| Registry.UnloadIfLoaded | obrbot/plugin.py:135-136 | afterwards the path is not loaded; a path that was not loaded changes nothing |
| Registry.RegisterWellFormed | obrbot/plugin.py:160-203 | registration keeps the tables well formed: no empty list under a key, catch-all hooks only in the catch-all list, each plugin under its own path |
| Registry.UnregisterWellFormed | obrbot/plugin.py:227-263 | unregistration keeps the tables well formed |
| Registry.RegisterUnregister | obrbot/plugin.py:160-263 | registering a plugin that is not loaded and whose hooks are new, then unloading its path, restores every table exactly (list order included, empty keys deleted) |
| Registry.UnregisterKeepsOthers | obrbot/plugin.py:227-263 | unloading one plugin leaves every other plugin's aliases, raw and catch-all hooks, event hooks, regex entries and sieves where they were |
| Registry.Register | obrbot/plugin.py:160-203 | the plugin is recorded under its path with its on_start list dropped; every other loaded plugin stays as it was |
| Registry.RegisterFiles | obrbot/plugin.py:160-200 | every hook of the plugin is filed: an event hook under each of its types, a catch-all raw hook in the catch-all list, any other raw hook under each of its verbs, a regex hook once per pattern, a sieve in the sieve list; every alias of a command hook is taken, and an alias taken before keeps its hook |
| Registry.Unregister | obrbot/plugin.py:227-263 | the unloaded path leaves the plugin table and every other plugin stays as it was |
| Registry.ReloadReplaces | obrbot/plugin.py:135-136 | loading a new copy over a loaded plugin gives the tables that loading the new copy alone gives |
| Registry.ReloadIdempotent | obrbot/plugin.py:135-136 | loading the same plugin again leaves the tables as one load does |
| Dispatch.Bind | obrbot/plugin.py:60-70 | defined exactly when every required name is on the event; then it has the same length and order as the names, with each attribute's value |
| Dispatch.PrepareParameters | obrbot/plugin.py:52-70 | the loop returns `Bind`'s value: `None` exactly when some required name is missing |
| Dispatch.BindMissing | obrbot/plugin.py:65-69 | once a prefix of the names fails to bind, the whole list fails |
| Dispatch.Replies | obrbot/plugin.py:306-311 | `None` sends nothing; a list or tuple is replied item by item; any other value is replied as the '\n'-split pieces of its string, which join back to that string and hold no newline |
| Dispatch.Execute | obrbot/plugin.py:281-313 | the handler is called exactly when the parameters bind; success means it was called and returned; a reply is sent only on success, and it is the replies of the handler's output |
| Dispatch.RunSieves | obrbot/plugin.py:345-349 | the chain runs sieves in order; a passed event means all of them ran; a rejection means at least one ran |
| Dispatch.RejectedByLast | obrbot/plugin.py:345-349 | the rejection comes from the last sieve that ran, and every sieve before it passed the event on |
| Dispatch.RejectionFinal | obrbot/plugin.py:347-349 | after a rejection no later sieve runs |
| Dispatch.TransparentSieves | obrbot/plugin.py:345-349 | sieves that pass the event on unchanged all run, and the hook sees the event it was launched with |
| Dispatch.LaunchOutcome | obrbot/plugin.py:335-369 | `sievesRun` is the sieves the chain ran; when the event is rejected by a sieve or stopped by the auto-help gate nothing is called, nothing succeeds, no reply is made and no lock is taken; past the gate, success, the call and the reply are those of running the handler and a lock is taken exactly for a single-instance hook, keyed by (plugin title, function name); the doc notice is sent exactly when the event passed the sieves and the auto-help gate fires on it (a command hook with auto-help and a docstring, called without text) |
| Dispatch.LaunchSuccess | obrbot/plugin.py:335-369 | `launch` succeeds exactly when the sieves pass the event, the auto-help gate does not fire, the parameters bind and the handler returns |
| Dispatch.LaunchRejected | obrbot/plugin.py:347-349 | a rejected event gets no help notice, no handler call, no reply and no lock |
| Dispatch.LaunchLifecycle | obrbot/plugin.py:345 | an on_start or on_stop hook's launch does not depend on the sieve list |
| PluginManagers.LockSet | obrbot/plugin.py:355-359 | the lock keys a launch adds: the one it took, if any |
| PluginManagers.StartupsBy | obrbot/plugin.py:154-158 | on_start hooks run in order until the first failure: success means all ran, failure means at least one ran |
| PluginManagers.StartupsByOk | obrbot/plugin.py:154-158 | the on_start phase succeeds exactly when every on_start hook's launch succeeds |
| PluginManagers.StartupsOk | obrbot/plugin.py:154-158 | the same, for `launch` on the current sieve list |
| PluginManagers.StartupsFinal | obrbot/plugin.py:156-158 | after a failure no later on_start hook runs |
| PluginManagers.StartupsStop | obrbot/plugin.py:156-158 | the phase ends at the first failing hook, and fails |
| PluginManagers.PluginManager.constructor | obrbot/plugin.py:97-111 | all tables and the lock table start empty, and the invariant holds |
| PluginManagers.PluginManager.ExecuteHook | obrbot/plugin.py:281-313 | `_execute_hook` returns `Execute`'s result |
| PluginManagers.PluginManager.Launch | obrbot/plugin.py:335-369 | returns `LaunchOutcome` for the manager's sieves, and adds only the lock it took to the lock table |
| PluginManagers.PluginManager.LaunchLifecycleHook | obrbot/plugin.py:155 | launches an on_start hook on its own event and adds only its lock |
| PluginManagers.PluginManager.RunStartups | obrbot/plugin.py:154-158 | the loop returns the on_start phase's result, and the lock table grows by exactly the locks the hooks took |
| PluginManagers.PluginManager.LoadPlugin | obrbot/plugin.py:125-206 | the previous copy of the path is unloaded first; an import failure stops there; the hooks are registered exactly when every on_start hook succeeds; otherwise the tables stay as after the unload; the lock table only grows |
| PluginManagers.PluginManager.RegisterPlugin | obrbot/plugin.py:160-206 | the tables become `Register` of the old tables, and the invariant is kept |
| PluginManagers.PluginManager.RegisterEventHooks | obrbot/plugin.py:163-169 | the nested loop files each event hook under each of its types |
| PluginManagers.PluginManager.RegisterCommandHooks | obrbot/plugin.py:172-180 | the nested loop gives each free alias to its first claimant |
| PluginManagers.PluginManager.RegisterRawHooks | obrbot/plugin.py:183-192 | catch-all hooks are appended to the catch-all list; every other hook is filed under each trigger |
| PluginManagers.PluginManager.RegisterRegexHooks | obrbot/plugin.py:195-198 | one (pattern, hook) entry is appended per pattern, in order |
| PluginManagers.PluginManager.RegisterSieveHooks | obrbot/plugin.py:201-203 | the sieves are appended in order |
| PluginManagers.PluginManager.Unload | obrbot/plugin.py:209-268 | returns whether the path was loaded; the tables become `UnloadIfLoaded` of the old ones; the invariant is kept |
| PluginManagers.PluginManager.UnregisterCommandHooks | obrbot/plugin.py:228-232 | deletes only aliases that map to the plugin's own hooks |
| PluginManagers.PluginManager.UnregisterRawHooks | obrbot/plugin.py:235-243 | removes catch-all hooks from the catch-all list and every other hook from under each trigger, deleting emptied keys |
| PluginManagers.PluginManager.UnregisterEventHooks | obrbot/plugin.py:246-251 | removes each event hook from under each of its types, deleting emptied keys |
| PluginManagers.PluginManager.UnregisterRegexHooks | obrbot/plugin.py:254-256 | removes each (pattern, hook) entry once |
| PluginManagers.PluginManager.UnregisterSieveHooks | obrbot/plugin.py:259-260 | removes each sieve once |
| Text.TakeLine | stratus/irc/protocol.py:9-11 | `(.*)` takes the text up to the first newline: a prefix of its input without newline, ended by the end or by a newline (also the `(.*)` of stratus/engine.py:169) |
| Protocol.SplitLine | stratus/irc/protocol.py:99-130 | a line starting with ':' splits into prefix, command and parameters; any other line into command and parameters; neither the prefix nor the command holds a space |
| Protocol.SplitLineInvalid | stratus/irc/protocol.py:99-124 | a line is skipped as invalid exactly when it has too few spaces for its form |
| Protocol.SplitLinePrefixed | stratus/irc/protocol.py:99-106 | `:p c params` splits back into p, c and params |
| Protocol.SplitLineUnprefixed | stratus/irc/protocol.py:119-126 | `c params` splits back into c and params |
| Protocol.ParseNetmask | stratus/irc/protocol.py:11 | a match is `nick!user@host` read back from the prefix: the prefix starts with nick, "!", user and "@", and the host is the rest of the line; the nick holds neither '!' nor '@' and the user holds no '@' |
| Protocol.ParseNetmaskNone | stratus/irc/protocol.py:11 | the prefix fails to match exactly when it has no '!', an '@' comes before the first '!', or no '@' comes after it |
| Protocol.ParseNetmaskOf | stratus/irc/protocol.py:107-118 | `nick!user@host` parses back to its three parts |
| Protocol.SenderOf | stratus/irc/protocol.py:106-130 | no prefix gives no sender fields; a prefix is always the mask; a netmask prefix sets nick, user and host to the three parts of its match; any other prefix is the nick, with no user or host |
| Protocol.Tokenize | stratus/irc/protocol.py:132 | every parameter but the last is a non-empty word without spaces or a leading ':'; the last may be a ':' parameter |
| Protocol.TokenizeSpaces | stratus/irc/protocol.py:12 | leading spaces, however many, add no parameter |
| Protocol.TokenizeConsRun | stratus/irc/protocol.py:12 | a word followed by a run of one or more spaces is one parameter, and the rest tokenizes on its own |
| Protocol.TokenizeTrailing | stratus/irc/protocol.py:12 | a text starting with ':' is one parameter, spaces and all |
| Protocol.TokenizeJoin | stratus/irc/protocol.py:132 | well-formed parameters joined with spaces tokenize back to themselves |
| Protocol.EventTypeOf | stratus/irc/protocol.py:142-145 | a command of the table gives its table entry; the type is `other` exactly for commands outside the table, and never `action` |
| Protocol.EventTypeOfInverse | stratus/irc/protocol.py:14-22 | a verb gives a type other than `other` exactly when it is the one command that type comes from (PRIVMSG, JOIN, PART, KICK, NICK, QUIT, 332) |
| Protocol.EventTypeOfInjective | stratus/irc/protocol.py:14-22 | distinct commands in the table give distinct event types |
| Protocol.ContentOf | stratus/irc/protocol.py:148-154 | a trailing last parameter minus its ':' is the content; otherwise a NICK's first parameter; otherwise no content; a NICK without parameters raises |
| Protocol.LastIndex | stratus/irc/protocol.py:160 | the position of the last occurrence of the character |
| Protocol.SplitFirstWord | stratus/irc/protocol.py:161 | `split(None, 1)`: none for a blank text; otherwise a word, and a rest that starts with a non-space when it is present |
| Protocol.CtcpOf | stratus/irc/protocol.py:158-170 | only a message can change; a message without content raises; a content that does not start with a mark or has a single mark passes unchanged with no CTCP; otherwise the CTCP is the text between the first mark and the last, and the parse raises exactly when that text is blank or a bare "ACTION"; the result is an action exactly when the CTCP text's first word is "ACTION", and its content is then the text after that word; any other CTCP becomes `other` with the content unchanged |
| Protocol.CtcpUnwraps | stratus/irc/protocol.py:158-170 | unwrapping inverts wrapping: "\x01text\x01", with no mark in the text, carries the text as its CTCP, and raises exactly when the text is blank or a bare "ACTION" |
| Protocol.CtcpAction | stratus/irc/protocol.py:158-165 | "\x01ACTION text\x01" becomes an action whose content is the text |
| Protocol.ChannelOf | stratus/irc/protocol.py:173-188 | a 353 uses its third parameter, lowercased; a line addressed to the bot uses the sender's nick, lowercased; a line addressed elsewhere uses its first parameter, lowercased; a JOIN with only a trailing parameter uses the content; any other line has no channel; a missing parameter or sender raises |
| Protocol.TargetOf | stratus/irc/protocol.py:190-202 | a KICK targets its second parameter; an INVITE targets its first and raises without one; a MODE with more than two parameters targets its third; a MODE with fewer targets its first and clears the channel; any other line has no target and keeps the channel |
| Protocol.PongOf | stratus/irc/protocol.py:136-137 | a PING is answered with "PONG " and its last parameter; a PING without parameters raises |
| Protocol.BuildEvent | stratus/irc/protocol.py:140-207 | the event keeps the raw line, command and parameters, and its sender is the parsed prefix; it is built exactly when the content, CTCP, channel and target steps all succeed, and its type, content, CTCP, channel and target are theirs |
| Protocol.ParseLine | stratus/irc/protocol.py:98-207 | a line is skipped exactly when it does not split; a split line is parsed exactly when the PING answer and the event are both built, and then carries them; a line whose PING has no parameter raises with no answer |
| Protocol.ParseLineSender | stratus/irc/protocol.py:106-118 | a parsed line from `nick!user@host` reports that nick, user and host, with the whole prefix as mask |
| Protocol.ParseLinePing | stratus/irc/protocol.py:136-137 | a PING with parameters is answered, whatever the later steps do |
| Protocol.LineEnd | stratus/irc/protocol.py:87 | the end of the first line of `splitlines()` |
| Protocol.Outgoing | stratus/irc/protocol.py:87 | `send` writes the first line, cut to its first 500 characters when it is longer, then CRLF; an empty line raises |
| Protocol.OutgoingFramed | stratus/irc/protocol.py:87-95 | what `send` writes, split at CRLF by `data_received`, is exactly one complete line, the first line of the argument cut to 500 characters, and nothing is left in the buffer |
| Protocol.FindCrlf | stratus/irc/protocol.py:94-95 | the position of the first CRLF, or the length when there is none |
| Protocol.Frames | stratus/irc/protocol.py:94-95 | neither the complete lines nor the partial rest holds a CRLF |
| Protocol.FramesGlue | stratus/irc/protocol.py:94-95 | the buffer is exactly its lines, each with its CRLF, then the partial rest |
| Protocol.ReceiveFrames | stratus/irc/protocol.py:91-95 | every complete line is handled exactly once, in arrival order, up to and including the first that raises; the buffer keeps the unhandled lines and the partial one |
| Protocol.ReceiveNoRaise | stratus/irc/protocol.py:91-95 | when nothing raises, every complete line is handled and the buffer left holds no CRLF |
| Protocol.ReceiveLeftover | stratus/irc/protocol.py:91-95 | what stays in the buffer is a suffix of it, and it holds no complete line unless the last line handled raised |
| Protocol.IrcProtocol.constructor | stratus/irc/protocol.py:37-46 | the input buffer starts empty |
| Protocol.IrcProtocol.DataReceived | stratus/irc/protocol.py:91-208 | the buffer loop's outcomes and the buffer left behind are `Receive` of the old buffer plus the data |
| ChannelState.NewUser | stratus/irc/state.py:205-211 | `mask_known` is true exactly when a mask is given; the fields are as passed |
| ChannelState.Key | stratus/irc/state.py:44 | a case-insensitive key: each character of the nick lowercased, so the key is lowercase and of the nick's length |
| ChannelState.KeySame | stratus/irc/state.py:44 | two nicks share a key exactly when they differ at most in the case of their letters |
| ChannelState.Learn | stratus/irc/state.py:133-136 | the event's ident, host and mask are taken only while the mask is unknown; nick, mode and `mask_known` are never changed |
| ChannelState.LearnKnown | stratus/irc/state.py:205-211 | a user created with a mask never learns from events |
| ChannelState.RemoveAll | stratus/irc/state.py:164 | `replace(c, '')` removes every `c` and keeps every other character as often as it was there |
| ChannelState.RemoveAllAppend | stratus/irc/state.py:164 | `replace` keeps the order of the letters it keeps: the result for a concatenation is the concatenation of the results |
| ChannelState.ApplyMode | stratus/irc/state.py:161-169 | a change raises exactly when it is empty, or when it is a bare '+' or '-' |
| ChannelState.ModeRemoved | stratus/irc/state.py:163-164 | '-' removes every occurrence of the letter and keeps the other letters |
| ChannelState.ModeAdded | stratus/irc/state.py:165-167 | '+' appends the letter only when it is absent, and so never introduces a duplicate |
| ChannelState.ModeOtherSign | stratus/irc/state.py:168-169 | any other sign leaves the mode unchanged |
| ChannelState.ModeAddThenRemove | stratus/irc/state.py:163-167 | adding an absent letter and then removing it restores the mode |
| ChannelState.ModeAddIdempotent | stratus/irc/state.py:165-167 | adding a letter twice is adding it once |
| ChannelState.SymbolsEnd | stratus/irc/state.py:14 | the run of mode symbols that opens a names item |
| ChannelState.NickEnd | stratus/irc/state.py:14 | the run of nick characters |
| ChannelState.MatchName | stratus/irc/state.py:14 | `mode_re.match`: symbols, then a nick that is maximal, together a prefix of the item |
| ChannelState.MatchNameOf | stratus/irc/state.py:14 | symbols followed by a nick and a non-nick character match as those two parts |
| ChannelState.ModeOf | stratus/irc/state.py:177-183 | the mode holds only 'v' and 'o' letters, at most one per symbol |
| ChannelState.ModeOfCounts | stratus/irc/state.py:177-183 | one 'v' per '+' and one 'o' per '@'; other symbols are dropped |
| ChannelState.ModeOfAppend | stratus/irc/state.py:177-183 | the letters follow the order of their symbols: the mode of a concatenation is the concatenation of the modes |
| ChannelState.ModeOfSymbol | stratus/irc/state.py:177-183 | one symbol gives 'v' for '+', 'o' for '@' and nothing otherwise |
| ChannelState.BuildMode | stratus/irc/state.py:177-183 | the loop builds `ModeOf` of the symbols |
| ChannelState.NameEntry | stratus/irc/state.py:173-186 | an item that matches gives a user with that nick, no mask and the mode of its symbols |
| ChannelState.AddNames | stratus/irc/state.py:171-187 | storing the listed users keeps every earlier key and keeps each user under its own nick |
| ChannelState.AddNamesNewKey | stratus/irc/state.py:171-187 | every key the listed users add is the lowercased nick of a matching item: nothing beyond the listed nicks is stored |
| ChannelState.AddNamesLatest | stratus/irc/state.py:185-187 | a listed user ends up under its bare nick, as created by the last item that names it |
| ChannelState.AddNamesKeeps | stratus/irc/state.py:171-187 | a member the reply does not name is left as it was |
| ChannelState.AddNamesAsWritten | stratus/irc/state.py:171-187 | the loop as written raises exactly when some item does not match |
| ChannelState.AddNamesAsWrittenAgrees | stratus/irc/state.py:171-187 | when every item matches, the loop as written and `AddNames` agree |
| ChannelState.AddNamesAsWrittenLosesLater | stratus/irc/state.py:173-177 | an item that does not match, followed by one that does: the loop as written raises before storing the second user, which `AddNames` stores |
| ChannelState.AddNamesAsWrittenLosesAlice | stratus/irc/state.py:173-177 | the names reply "!x alice" loses alice |
| ChannelState.RenameAsWritten | stratus/irc/state.py:138-141 | the delete at the end always leaves the old key empty |
| ChannelState.RenameAsWrittenLosesUser | stratus/irc/state.py:138-141 | renaming "Bob" to "bob" empties the table |
| ChannelState.Rename | stratus/irc/state.py:130-141 | the renamed user sits under the new nick; the old key is gone when the nicks differ ignoring case; every other entry is untouched |
| ChannelState.RenameAgrees | stratus/irc/state.py:138-141 | for nicks that differ ignoring case, the code as written is `Rename` |
| ChannelState.Latest | stratus/irc/state.py:45 | the newest entries of a sequence, at most the given number |
| ChannelState.Appended | stratus/irc/state.py:95 | a bounded deque append: the new entry is last; when the deque is full the oldest is dropped |
| ChannelState.AppendedAll | stratus/irc/state.py:45 | the history never exceeds 100 entries |
| ChannelState.AppendedAllLatest | stratus/irc/state.py:95 | after any appends the history is the newest 100 of everything appended |
| ChannelState.ParseHistoryData | stratus/irc/state.py:214-223 | the fields are the lines after the first; a known type name on the first line gives that type, an unknown one `other`; the score is kept exactly when it is truthy |
| ChannelState.HistoryRejoin | stratus/irc/state.py:214-223 | the first line and the fields joined with newlines give back the stored data |
| ChannelState.HistoryData | stratus/irc/state.py:58 | the stored text splits on newlines into the event type's name followed by the variables, when no variable holds a newline |
| ChannelState.HistoryRoundTrip | stratus/irc/state.py:214-223 | decoding what `_add_history` stores gives back the event type and the variables, when no variable holds a newline |
| ChannelState.Channel.constructor | stratus/irc/state.py:41-46 | no users, empty history, empty topic |
| ChannelState.Channel.TrackMessage | stratus/irc/state.py:84-95 | a missing sender raises and changes nothing; otherwise the sender's mask is learned and the message is appended to the history under the stored nick |
| ChannelState.Channel.TrackJoin | stratus/irc/state.py:98-103 | the sender is stored afresh with the event's ident, host and mask and an empty mode |
| ChannelState.Channel.Remove | stratus/irc/state.py:110-126 | `del` of a member: reports whether it was there; exactly that key is gone |
| ChannelState.Channel.TrackPart | stratus/irc/state.py:106-111 | the sender is removed |
| ChannelState.Channel.TrackQuit | stratus/irc/state.py:114-119 | the sender is removed |
| ChannelState.Channel.TrackKick | stratus/irc/state.py:122-127 | the target is removed, not the kicker |
| ChannelState.Channel.TrackNick | stratus/irc/state.py:130-141 | as intended; see ## Findings: a missing sender or new nick changes nothing; otherwise the user, its mask learned, moves to the new nick and the others stay |
| ChannelState.Channel.TrackTopic | stratus/irc/state.py:144-154 | a missing sender raises; otherwise the mask is learned and the topic becomes the content |
| ChannelState.Channel.TrackMode | stratus/irc/state.py:156-169 | the target's mode becomes `ApplyMode` of the second parameter; a missing target, parameter or letter changes nothing |
| ChannelState.Channel.Track353 | stratus/irc/state.py:171-187 | as intended; see ## Findings: the loop stores the users of the reply as `AddNames` does; a reply without content changes nothing |
| Engine.RemoveSpaces | stratus/engine.py:22 | no whitespace is left and the result is never longer |
| Engine.RemoveSpacesCounts | stratus/engine.py:22 | every character that is not whitespace is kept as often as it was there |
| Engine.RemoveSpacesNone | stratus/engine.py:22 | a string without whitespace is unchanged |
| Engine.RemoveSpacesAppend | stratus/engine.py:22 | whitespace is removed character by character: the result for a concatenation is the concatenation of the results, so the kept characters stay in order |
| Engine.RemoveSpacesChar | stratus/engine.py:22 | one character is dropped when it is whitespace and kept otherwise |
| Engine.CleanName | stratus/engine.py:17-22 | no whitespace and no upper-case letter is left; the other characters are those of the lowercased name |
| Engine.CleanNameFixpoint | stratus/engine.py:17-22 | a name is unchanged exactly when it has no whitespace and no upper-case letter |
| Engine.CleanNameIdempotent | stratus/engine.py:17-22 | applying `clean_name` twice is applying it once |
| Engine.CleanNameAppend | stratus/engine.py:17-22 | `clean_name` works character by character and keeps the order: the result for a concatenation is the concatenation of the results |
| Engine.CleanNameChar | stratus/engine.py:17-22 | one character is dropped when it is whitespace and lowercased otherwise |
| Engine.CommandRun | stratus/engine.py:169 | `[\w-]+` is greedy: the run of command characters |
| Engine.MarkRun | stratus/engine.py:169 | `[,;:]+` is greedy: the run of address marks |
| Engine.CommandAt | stratus/engine.py:169-175 | the matched word is a command word found at that position, followed by the end or whitespace; the text holds no newline; a word that reaches the end of the message, or its final newline, gives that word with an empty text |
| Engine.CommandAtAlone | stratus/engine.py:169-175 | a word followed by nothing, or by a final newline, gives the word and an empty text |
| Engine.TextAfterStrips | stratus/engine.py:169 | `\s+(.*)` takes the first line of what remains once leading whitespace is stripped |
| Engine.AddressTail | stratus/engine.py:172 | `[,;:]+\s+`: the tail starts with the maximal run of marks, which is followed by a run of whitespace, and that run is maximal: the tail ends at the end or before a non-whitespace character |
| Engine.AddressTailFound | stratus/engine.py:172 | a tail is found exactly when at least one mark opens the text and whitespace follows the marks |
| Engine.AddressEnd | stratus/engine.py:172 | an address is found exactly when the bot's nick, ignoring case, opens the message and an address tail follows it; it ends where the tail does |
| Engine.AddressEndRuns | stratus/engine.py:172 | an address is the nick, then the maximal run of marks, then the maximal run of whitespace, which ends where the address does |
| Engine.MatchCommand | stratus/engine.py:168-175 | a recognised command is a command word on one line; in a channel it needs the prefix character or the bot's address |
| Engine.MatchWithPrefix | stratus/engine.py:168-175 | a prefix character, a word and a text give that word and the text without leading whitespace |
| Engine.MatchWithPrefixAlone | stratus/engine.py:168-175 | a prefix character and a word that ends the message (or is followed by a final newline) give the word with an empty text |
| Engine.MatchBarePrivate | stratus/engine.py:168-170 | in a private message the prefix may be left out |
| Engine.MatchBarePrivateAlone | stratus/engine.py:168-170 | in a private message a bare word that ends the message is a command with an empty text |
| Engine.MatchChannelNeedsAddress | stratus/engine.py:171-173 | in a channel, content with neither prefix nor address matches nothing |
| Engine.MatchAddressed | stratus/engine.py:168-175 | "botnick: word text" gives the word and the text, in a channel or in private |
| Engine.MatchAddressedAlone | stratus/engine.py:168-175 | "botnick: word" with nothing after the word gives the word with an empty text, in a channel or in private |
| Engine.ParseCommand | stratus/engine.py:175-181 | for an event with a channel and a nick, a command is found exactly when `command_re` matches the content; its command is the matched word lowercased and its text the text after it stripped |
| Engine.ParseCommandPrefixed | stratus/engine.py:175-181 | a prefix character, a word, a space and a text give the lowercased word and the stripped text |
| Engine.ParseCommandAlone | stratus/engine.py:175-181 | a prefix character and a word that ends the message give the lowercased word and an empty text |
| Engine.ParseCommandHelp | stratus/engine.py:175-181 | ".Help  args " with the prefix "." gives the command "help" with the text "args" |
| Engine.CommandLaunches | stratus/engine.py:166-186 | a launch exactly for a message with a channel and a nick whose lowercased command word is a registered alias; it launches that alias's hook with the command event |
| Engine.CommandLaunchesPrefixed | stratus/engine.py:166-186 | for a message with a channel and a nick opening with a prefix character, a word and a space, the hook filed under the lowercased word launches once with the stripped text; a word that is no alias launches nothing |
| Engine.RegexLaunches | stratus/engine.py:189-196 | every launch comes from a pattern found in the content |
| Engine.RegexLaunchesNext | stratus/engine.py:189-196 | each further entry adds one launch, at the end, exactly when its pattern is found: every matching entry launches, in table order |
| Engine.RegexLaunchesFrom | stratus/engine.py:189-196 | every regex launch is a (pattern, hook) entry of the table whose pattern is found in the content |
| Engine.RegexAllMatch | stratus/engine.py:189-196 | when every pattern matches, each entry gives one launch, in table order |
| Engine.RegexTwice | stratus/engine.py:189-196 | a hook with two matching patterns is launched twice |
| Engine.SelectedNonMessage | stratus/engine.py:144-166 | for an event that is not a message, only raw and event-type hooks launch, on the event alone |
| Engine.SelectedFrom | stratus/engine.py:144-196 | every launch `process` makes comes from the tables: a catch-all hook, a hook under the verb or of the event type on the event alone; a command launch is the hook filed under the recognised alias; a regex launch is an entry whose pattern is found; commands and regexes are considered for messages only |
| Engine.SelectedRaw | stratus/engine.py:144-157 | for any line with a verb, message or not, each catch-all hook and each hook under the verb is launched on the event alone as often as it is listed, so once for a hook listed once |
| Engine.MessageNotPlain | stratus/engine.py:166-196 | the command and regex launches of a message all carry an extra event |
| Engine.PlainsCount | stratus/engine.py:146-164 | each hook is launched as often as it occurs in its list |
| Engine.Batch | stratus/engine.py:147-150 | a batch holds only launches of the input whose hook has that `run_first` value |
| Engine.BatchConcat | stratus/engine.py:140-196 | batching keeps the launch order across the phases |
| Engine.BatchPartition | stratus/engine.py:147-150 | the two batches together are a permutation of the launches: each launch goes to exactly one batch |
| Engine.Enqueue | stratus/engine.py:146-164 | the loop appends each launch to `first` or `tasks` by its hook's `run_first` |
| Engine.EnqueueRegex | stratus/engine.py:189-196 | the regex loop appends a launch per matching entry to the batch of its hook |
| Engine.EnqueueRaw | stratus/engine.py:144-156 | the raw phase appends the raw launches to the two batches |
| Engine.EnqueueEvent | stratus/engine.py:159-164 | the event phase appends the event-type launches |
| Engine.EnqueueMessage | stratus/engine.py:166-196 | a message without a channel or a nick raises at the private-message test and appends nothing; otherwise the message phase appends the command launch and the regex launches |
| Engine.Process | stratus/engine.py:136-200 | a message without a channel or a nick raises before the gathers, and no launch is awaited; otherwise `first` and `tasks` are the `run_first` and other launches of every hook selected for the event, in the order `process` makes them |
| Events.FromName | stratus/irc/state.py:217-219 | a recognised name names the member found |
| Events.FromNameOfName | stratus/irc/state.py:217-219 | a stored member name is recognised as that member |
| Text.Lower | stratus/engine.py:22 | lowercasing maps each character on its own and keeps the length |
| Text.LowerIdempotent | stratus/engine.py:178 | lowercasing twice is lowercasing once |
| Text.Split | stratus/irc/state.py:215 | `split('\n')`: at least one part, and no part holds the separator |
| Text.JoinSplit | obrbot/plugin.py:311 | joining the parts of a split gives the string back |
| Text.SplitJoin | stratus/irc/state.py:215 | splitting a join of parts without the separator gives the parts back |
| Text.SplitWhitespace | stratus/irc/state.py:172 | `split()` gives non-empty words without whitespace |
| Text.SplitWhitespaceAppend | stratus/irc/state.py:172 | splitting distributes over a concatenation whose seam is whitespace: no word is glued across it or cut by it |
| Text.SplitWhitespaceWord | stratus/irc/state.py:172 | a word on its own is one word |
| Text.SplitWhitespaceBlank | stratus/irc/state.py:172 | text made of whitespace holds no word; with the two rows above the words are the maximal non-whitespace runs, in order |
| Text.SplitWhitespaceSpace | stratus/irc/state.py:172 | leading whitespace is skipped |
| Text.Strip | stratus/engine.py:181 | the stripped text is the slice of the input between its leading and its trailing whitespace; it neither starts nor ends with whitespace, and it is empty exactly when the input is all whitespace |
| Text.StripUnique | stratus/engine.py:181 | any non-empty slice with only whitespace before and after it, and none at its own ends, is the stripped text |

## Left out

- Concurrency: `asyncio.gather`, `run_in_executor` and `ensure_future` are not modelled. The locks are not modelled as blocking. The lock table is a set of keys that only grows.
- `PluginManagers.PluginManager.LoadPlugin`: on_start hooks run one after another, but the class sees `launch` only through its outcome. A hook that unloads plugins while it runs is not modelled.
- Reflection and file handling: `importlib`, `glob`, `os.path` and `inspect.getargspec` are not modelled. The path, title, scanned hook entries and required argument names are inputs. An import failure is `scanned == None`.
- `load_all`, `run_shutdown_hooks`, `_log_hook` and `__repr__`/`__str__` are left out: they are logging or `gather` over `launch`. The on_stop hooks are kept in the plugin record.
- Registry.RemoveAt: the source asserts that a trigger or event type is a key before removing a hook under it (obrbot/plugin.py:240 and obrbot/plugin.py:248). A missing key raises AssertionError there, while the model skips it. The same holds for `PluginManagers.PluginManager.UnregisterRawHooks` and `UnregisterEventHooks`. Registration files every hook under each of its keys (`Registry.RegisterFiles`), so a plugin loaded through the tables never meets a missing key.
- `Seqs.RemoveFirst`: `list.remove` raises when the element is absent. The total version leaves the list unchanged instead. The round-trip lemmas only remove elements that loading added.
- Handlers, sieves and the event built for an on_start hook are plugin code, and enter as the functions of `Dispatch.Env`. A sieve that raises is one that returns `None`. `event.reply` and `event.notice_doc` are recorded in the outcome rather than sent.
- Engine launches: `engine.py` calls `launch` with three arguments while `obrbot/plugin.py` takes two. The engine's selection is modelled as a list of (hook, extra event) launches, and running them is not modelled.
- The regular-expression search of regex hooks is a parameter `matches`. The IRC regular expressions are written out as the splits they perform.
- Lowercasing and `\w` are ASCII only; Python applies the Unicode definitions, and case folding beyond ASCII is not modelled. Whitespace (`\s`, `str.isspace`, `strip`, `split`) follows Python's Unicode whitespace set (`Text.IsSpace`).
- Engine: the bot nick and the command prefix are taken literally, with no regular-expression metacharacters.
- Engine.MatchCommand: with an empty command prefix, Python reads the `]` right after `[` as a literal. The class then runs on to the first `]` after the nick, so the expression becomes one class of ']', '|', the nick's characters, '[', ',', ';' and ':' (and '?' in a private message), repeated and followed by whitespace. That form accepts no bare word. The model instead treats the empty prefix as an empty set. It still accepts a bare word in a private message, and it still accepts the nick-and-marks address.
- UTF-8 encoding and decoding in `send` and `data_received`, the transport, and the connection callbacks are not modelled. Lines are strings.
- Redis history (`_add_history`, `get_history`, `grouper`) is not modelled. `datetime` is a number passed in, and the `track_*` methods do not write to the database.
- `ChannelState.Channel`: `User` objects are mutated in place in Python. Here they are values in the member map, and the map entry is reassigned; aliasing between entries is not modelled.
- `ChannelState.Channel.TrackNick`: when a user exists but the event has no new nick, Python learns the mask before raising. The model changes nothing.
- `stratus/event.py`, `obrbot/event.py`, `stratus/plugins/loader.py` and `stratus/helpers/dictionaries.py` are not part of this model. The event-type names are taken to be the lowercase member names, and the case-insensitive dictionary is a map keyed by the lowercased nick.

## Findings

| source | as written | input that shows it | evidently intended | confidence | as-written member | corrected member |
|---|---|---|---|---|---|---|
| stratus/irc/state.py:138-141 | `track_nick` stores the user under the new nick, then deletes the old key; in a case-insensitive table both nicks are the same key when they differ only in case | member "Bob" changes nick to "bob": the table ends empty | the user stays, renamed, under the new nick | not executed | ChannelState.RenameAsWrittenLosesUser | ChannelState.Rename |
| stratus/irc/state.py:173-177 | a names item that does not fit `mode_re` is only logged; `match.group(1)` then raises and the rest of the reply is lost | names reply "!x alice": alice is never stored | skip the item that does not fit and store the others | not executed | ChannelState.AddNamesAsWrittenLosesAlice | ChannelState.AddNamesLatest |
