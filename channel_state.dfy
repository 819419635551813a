/** What the IRC layer remembers about one channel: its members, keyed case-insensitively by nick,
    each with its ident, host, mask and mode letters; the last hundred messages; and the topic.
    The `track_*` handlers update that state in place from channel events. The history records
    kept in the database are reduced to their text encoding and its decoder. */
module ChannelState {
  import opened Wrappers
  import opened Events
  import opened Text
  import Seqs

  // ---------------------------------------------------------------------------------------------
  // Users.

  /** A channel member. `maskKnown` records whether a mask was given when the user was created;
      while it is false, the ident, host and mask follow the user's events. */
  datatype User = User(
    nick: string,
    ident: Option<string>,
    host: Option<string>,
    mask: Option<string>,
    maskKnown: bool,
    mode: string)

  /** `User(nick, ident=..., host=..., mask=..., mode=...)`. */
  function NewUser(nick: string, ident: Option<string>, host: Option<string>, mask: Option<string>, mode: string): (u: User)
    ensures u.maskKnown <==> mask.Some?
    ensures u.nick == nick && u.ident == ident && u.host == host && u.mask == mask && u.mode == mode
  {
    User(nick, ident, host, mask, mask.Some?, mode)
  }

  /** The key of the case-insensitive user table. */
  function Key(nick: string): (k: string)
    ensures |k| == |nick| && Lower(k) == k
    ensures forall i :: 0 <= i < |nick| ==> k[i] == LowerChar(nick[i])
  {
    LowerIdempotent(nick);
    Lower(nick)
  }

  /** Two nicks are the same key exactly when they differ at most in the case of their letters. */
  lemma KeySame(a: string, b: string)
    ensures Key(a) == Key(b) <==> |a| == |b| && forall i :: 0 <= i < |a| ==> LowerChar(a[i]) == LowerChar(b[i])
  {
    if |a| == |b| && forall i :: 0 <= i < |a| ==> LowerChar(a[i]) == LowerChar(b[i]) {
      assert forall i :: 0 <= i < |a| ==> Key(a)[i] == Key(b)[i];
    }
  }

  /** The fields of a channel event that the tracker reads. */
  datatype ChannelEvent = ChannelEvent(
    nick: string,
    user: Option<string>,
    host: Option<string>,
    mask: Option<string>,
    content: Option<string>,
    target: Option<string>,
    params: seq<string>)

  /** The event's ident, host and mask replace the user's only while the user's mask is unknown;
      nothing else about the user changes. */
  function Learn(u: User, e: ChannelEvent): (r: User)
    ensures u.maskKnown ==> r == u
    ensures !u.maskKnown ==> r.ident == e.user && r.host == e.host && r.mask == e.mask
    ensures r.nick == u.nick && r.mode == u.mode && r.maskKnown == u.maskKnown
  {
    if u.maskKnown then u else u.(ident := e.user, host := e.host, mask := e.mask)
  }

  /** Once a user's mask is known, events no longer change it. */
  lemma LearnKnown(nick: string, ident: Option<string>, host: Option<string>, mask: string, e: ChannelEvent)
    ensures var u := NewUser(nick, ident, host, Some(mask), "");
      Learn(u, e) == u
  {
  }

  // ---------------------------------------------------------------------------------------------
  // Mode letters.

  /** `s.replace(c, '')`. */
  function RemoveAll(s: string, c: char): (r: string)
    ensures c !in r && |r| <= |s|
    ensures forall d :: d != c ==> multiset(r)[d] == multiset(s)[d]
    ensures c !in s ==> r == s
  {
    if |s| == 0 then ""
    else
      var n := |s| - 1;
      var rest := RemoveAll(s[..n], c);
      assert s == s[..n] + [s[n]];
      assert multiset(s) == multiset(s[..n]) + multiset{s[n]};
      if s[n] == c then rest else rest + [s[n]]
  }

  /** `str.replace` works left to right: the result of a concatenation is the concatenation of the
      results, so the letters kept stay in their order. */
  lemma {:induction false} RemoveAllAppend(a: string, b: string, c: char)
    ensures RemoveAll(a + b, c) == RemoveAll(a, c) + RemoveAll(b, c)
    decreases |b|
  {
    if |b| == 0 {
      assert a + b == a;
    } else {
      var n := |b| - 1;
      var front, d := b[..n], b[n];
      assert a + b == (a + front) + [d] && b == front + [d];
      RemoveAllSnoc(a + front, d, c);
      RemoveAllSnoc(front, d, c);
      RemoveAllAppend(a, front, c);
      Seqs.AppendAssoc(RemoveAll(a, c), RemoveAll(front, c), if d == c then "" else [d]);
    }
  }

  lemma RemoveAllSnoc(s: string, d: char, c: char)
    ensures RemoveAll(s + [d], c) == RemoveAll(s, c) + (if d == c then "" else [d])
  {
    assert (s + [d])[..|s|] == s;
  }

  /** A mode change such as "+v" or "-o" applied to a user's mode string: '-' removes every
      occurrence of the letter, '+' appends it unless it is already there, any other sign leaves
      the mode as it is. Reading the sign of an empty change, or the letter of a bare sign, raises. */
  function ApplyMode(mode: string, change: string): (r: Result<string>)
    ensures r.Failure? <==> |change| == 0 || ((change[0] == '-' || change[0] == '+') && |change| == 1)
  {
    if |change| == 0 then Failure
    else if change[0] == '-' then
      if |change| == 1 then Failure else Success(RemoveAll(mode, change[1]))
    else if change[0] == '+' then
      if |change| == 1 then Failure
      else if change[1] in mode then Success(mode)
      else Success(mode + [change[1]])
    else Success(mode)
  }

  /** '-' takes the letter out entirely and keeps every other letter as often as it was there. */
  lemma ModeRemoved(mode: string, c: char, rest: string)
    ensures var r := ApplyMode(mode, ['-', c] + rest);
      r.Success? && c !in r.value && forall d :: d != c ==> multiset(r.value)[d] == multiset(mode)[d]
  {
    assert (['-', c] + rest)[1] == c;
  }

  /** '+' leaves the letter present, adds nothing else, and never duplicates a letter. */
  lemma ModeAdded(mode: string, c: char, rest: string)
    ensures var r := ApplyMode(mode, ['+', c] + rest);
      && r.Success? && c in r.value
      && (c in mode ==> r.value == mode)
      && (c !in mode ==> r.value == mode + [c])
      && (Seqs.Distinct(mode) ==> Seqs.Distinct(r.value))
  {
    assert (['+', c] + rest)[1] == c;
    var m := mode + [c];
    if c !in mode && Seqs.Distinct(mode) {
      forall i, j | 0 <= i < j < |m| ensures m[i] != m[j] {
        if j == |mode| {
          assert m[i] == mode[i];
        }
      }
    }
  }

  /** Any sign other than '+' or '-' changes nothing. */
  lemma ModeOtherSign(mode: string, change: string)
    requires |change| > 0 && change[0] != '+' && change[0] != '-'
    ensures ApplyMode(mode, change) == Success(mode)
  {
  }

  /** Removing a letter that was just added restores the mode the user had. */
  lemma ModeAddThenRemove(mode: string, c: char)
    requires c !in mode
    ensures var added := ApplyMode(mode, ['+', c]);
      added.Success? && ApplyMode(added.value, ['-', c]) == Success(mode)
  {
    var m := mode + [c];
    assert RemoveAll(m, c) == mode by {
      assert m[..|mode|] == mode;
    }
  }

  /** Adding a letter twice is adding it once. */
  lemma ModeAddIdempotent(mode: string, c: char)
    ensures var once := ApplyMode(mode, ['+', c]);
      once.Success? && ApplyMode(once.value, ['+', c]) == once
  {
    var m := mode + [c];
    assert m[|mode|] == c;
  }

  // ---------------------------------------------------------------------------------------------
  // Names reply (353).

  /** The mode symbols a names reply may put in front of a nick. */
  predicate IsModeSymbol(c: char) {
    c == '@' || c == '&' || c == '~' || c == '%' || c == '+'
  }

  /** The characters a nick may start with. */
  predicate IsNickStart(c: char) {
    ('a' <= c <= 'z') || ('A' <= c <= 'Z') || ('0' <= c <= '9')
    || c == '_' || c == '\\' || c == '[' || c == ']' || c == '{' || c == '}' || c == '^' || c == '`' || c == '|'
  }

  /** The characters a nick may hold after its first. */
  predicate IsNickChar(c: char) {
    IsNickStart(c) || c == '-'
  }

  predicate IsSymbols(s: string) {
    forall k :: 0 <= k < |s| ==> IsModeSymbol(s[k])
  }

  predicate IsNick(s: string) {
    |s| > 0 && IsNickStart(s[0]) && forall k :: 0 <= k < |s| ==> IsNickChar(s[k])
  }

  /** Length of the leading run of mode symbols. */
  function SymbolsEnd(s: string): (i: nat)
    ensures i <= |s| && IsSymbols(s[..i])
    ensures i < |s| ==> !IsModeSymbol(s[i])
  {
    if |s| == 0 || !IsModeSymbol(s[0]) then 0
    else
      var i := 1 + SymbolsEnd(s[1..]);
      assert forall k :: 1 <= k < i ==> s[..i][k] == s[1..][..i - 1][k - 1];
      i
  }

  /** Length of the leading run of nick characters. */
  function NickEnd(s: string): (i: nat)
    ensures i <= |s| && forall k :: 0 <= k < i ==> IsNickChar(s[k])
    ensures i < |s| ==> !IsNickChar(s[i])
  {
    if |s| == 0 || !IsNickChar(s[0]) then 0 else 1 + NickEnd(s[1..])
  }

  /** `mode_re.match(item)`: the leading mode symbols and the nick right after them, or `None` when
      no nick starts there. */
  function MatchName(item: string): (r: Option<(string, string)>)
    ensures r.Some? ==> IsSymbols(r.value.0) && IsNick(r.value.1)
    ensures r.Some? ==> |r.value.0| + |r.value.1| <= |item| && item[..|r.value.0| + |r.value.1|] == r.value.0 + r.value.1
    ensures r.Some? ==> |r.value.0| + |r.value.1| == |item| || !IsNickChar(item[|r.value.0| + |r.value.1|])
  {
    var i := SymbolsEnd(item);
    if i == |item| || !IsNickStart(item[i]) then None
    else
      var tail := item[i..];
      var j := i + NickEnd(tail);
      assert item[..j] == item[..i] + item[i..j];
      assert IsNick(item[i..j]) by {
        assert item[i..j] == tail[..j - i];
        assert forall k :: 0 <= k < j - i ==> tail[..j - i][k] == tail[k];
      }
      assert j < |item| ==> item[j] == tail[j - i];
      Some((item[..i], item[i..j]))
  }

  /** Symbols, a nick, then anything that cannot continue the nick: the match gives back the
      symbols and the nick. */
  lemma MatchNameOf(symbols: string, nick: string, rest: string)
    requires IsSymbols(symbols) && IsNick(nick) && (|rest| == 0 || !IsNickChar(rest[0]))
    ensures MatchName(symbols + nick + rest) == Some((symbols, nick))
  {
    var item := symbols + nick + rest;
    var i := SymbolsEnd(item);
    assert item[|symbols|] == nick[0];
    assert forall k :: 0 <= k < |symbols| ==> item[k] == symbols[k];
    assert i == |symbols|;
    var tail := item[i..];
    assert tail == nick + rest;
    var e := NickEnd(tail);
    assert forall k :: 0 <= k < |nick| ==> tail[k] == nick[k];
    assert |rest| > 0 ==> tail[|nick|] == rest[0];
    assert e == |nick|;
    assert item[..i] == symbols;
    assert item[i..i + e] == nick;
  }

  /** `symbol_to_mode`. */
  const SymbolToMode: map<char, char> := map['+' := 'v', '@' := 'o']

  /** The mode letters of a run of symbols: '+' gives 'v', '@' gives 'o', the others nothing. */
  function ModeOf(symbols: string): (m: string)
    ensures |m| <= |symbols|
    ensures forall k :: 0 <= k < |m| ==> m[k] == 'v' || m[k] == 'o'
  {
    if |symbols| == 0 then ""
    else
      var n := |symbols| - 1;
      var prev := ModeOf(symbols[..n]);
      if symbols[n] in SymbolToMode then prev + [SymbolToMode[symbols[n]]] else prev
  }

  /** One 'v' per '+' and one 'o' per '@', and nothing else. */
  lemma {:induction false} ModeOfCounts(symbols: string)
    ensures var m := ModeOf(symbols);
      && multiset(m)['v'] == multiset(symbols)['+']
      && multiset(m)['o'] == multiset(symbols)['@']
      && |m| == multiset(symbols)['+'] + multiset(symbols)['@']
  {
    if |symbols| > 0 {
      var n := |symbols| - 1;
      var front, c := symbols[..n], symbols[n];
      ModeOfCounts(front);
      assert multiset(symbols) == multiset(front) + multiset{c} by {
        assert symbols == front + [c];
      }
      var m := ModeOf(front);
      if c in SymbolToMode {
        assert multiset(m + [SymbolToMode[c]]) == multiset(m) + multiset{SymbolToMode[c]};
      }
    }
  }

  /** The letters follow the order of their symbols: the mode of a concatenation is the
      concatenation of the modes, and one symbol gives its letter or nothing. */
  lemma {:induction false} ModeOfAppend(a: string, b: string)
    ensures ModeOf(a + b) == ModeOf(a) + ModeOf(b)
    decreases |b|
  {
    if |b| == 0 {
      assert a + b == a;
    } else {
      var n := |b| - 1;
      var front, c := b[..n], b[n];
      assert a + b == (a + front) + [c] && b == front + [c];
      ModeOfSnoc(a + front, c);
      ModeOfSnoc(front, c);
      ModeOfAppend(a, front);
      Seqs.AppendAssoc(ModeOf(a), ModeOf(front), if c in SymbolToMode then [SymbolToMode[c]] else "");
    }
  }

  lemma ModeOfSnoc(s: string, c: char)
    ensures ModeOf(s + [c]) == ModeOf(s) + (if c in SymbolToMode then [SymbolToMode[c]] else "")
  {
    assert (s + [c])[..|s|] == s;
  }

  lemma ModeOfSymbol(c: char)
    ensures ModeOf([c]) == if c == '+' then "v" else if c == '@' then "o" else ""
  {
    assert [c][..0] == "";
  }

  /** The lines 177-183 loop: the mode letters of the symbols, in order. */
  method BuildMode(symbols: string) returns (mode: string)
    ensures mode == ModeOf(symbols)
  {
    mode := "";
    for j := 0 to |symbols|
      invariant mode == ModeOf(symbols[..j])
    {
      assert symbols[..j + 1][..j] == symbols[..j];
      var symbol := symbols[j];
      if symbol in SymbolToMode {
        mode := mode + [SymbolToMode[symbol]];
      }
    }
    assert symbols[..|symbols|] == symbols;
  }

  /** The user a names-reply item creates: its bare nick, no mask, and the mode of its symbols. */
  function NameEntry(item: string): (r: Option<User>)
    ensures r.Some? <==> MatchName(item).Some?
    ensures r.Some? ==> IsNick(r.value.nick) && !r.value.maskKnown && r.value.mode == ModeOf(MatchName(item).value.0)
  {
    match MatchName(item)
    case None => None
    case Some(m) => Some(NewUser(m.1, None, None, None, ModeOf(m.0)))
  }

  /** Every user is stored under the key of its own nick. */
  ghost predicate KeyedByNick(users: map<string, User>) {
    forall k :: k in users ==> Key(users[k].nick) == k
  }

  /** `track_353_channel_list` as intended: each item that fits stores its user under its bare
      nick, replacing any earlier entry; an item that does not fit is skipped. */
  function AddNames(users: map<string, User>, items: seq<string>): (r: map<string, User>)
    ensures users.Keys <= r.Keys
    ensures KeyedByNick(users) ==> KeyedByNick(r)
  {
    if |items| == 0 then users
    else
      var n := |items| - 1;
      AddName(AddNames(users, items[..n]), items[n])
  }

  /** One item of the reply: the user it creates replaces any entry under its bare nick. */
  function AddName(users: map<string, User>, item: string): (r: map<string, User>)
    ensures users.Keys <= r.Keys
    ensures KeyedByNick(users) ==> KeyedByNick(r)
  {
    match NameEntry(item)
    case None => users
    case Some(u) => users[Key(u.nick) := u]
  }

  /** The names reply adds no key beyond the listed nicks: a new key is the key of an item that
      fits `mode_re`. */
  lemma {:induction false} AddNamesNewKey(users: map<string, User>, items: seq<string>, k: string)
    requires k in AddNames(users, items) && k !in users
    ensures exists j :: 0 <= j < |items| && NameEntry(items[j]).Some? && Key(NameEntry(items[j]).value.nick) == k
  {
    var n := |items| - 1;
    var prev := AddNames(users, items[..n]);
    if k in prev {
      AddNamesNewKey(users, items[..n], k);
      var j :| 0 <= j < n && NameEntry(items[..n][j]).Some? && Key(NameEntry(items[..n][j]).value.nick) == k;
      assert items[..n][j] == items[j];
    } else {
      assert NameEntry(items[n]).Some? && Key(NameEntry(items[n]).value.nick) == k;
    }
  }

  /** One more item of the names reply. */
  lemma AddNamesNext(users: map<string, User>, items: seq<string>, i: nat)
    requires i < |items|
    ensures AddNames(users, items[..i + 1]) == AddName(AddNames(users, items[..i]), items[i])
  {
    assert items[..i + 1][..i] == items[..i];
  }

  /** A listed user ends up stored as created by the last item that names it. */
  lemma {:induction false} AddNamesLatest(users: map<string, User>, items: seq<string>, i: nat)
    requires i < |items| && NameEntry(items[i]).Some?
    requires forall j :: i < j < |items| && NameEntry(items[j]).Some? ==>
      Key(NameEntry(items[j]).value.nick) != Key(NameEntry(items[i]).value.nick)
    ensures var u := NameEntry(items[i]).value;
      Key(u.nick) in AddNames(users, items) && AddNames(users, items)[Key(u.nick)] == u
  {
    var n := |items| - 1;
    var k := Key(NameEntry(items[i]).value.nick);
    AddNamesNext(users, items, n);
    assert items[..n + 1] == items;
    if i < n {
      var front := items[..n];
      assert front[i] == items[i];
      assert forall j :: i < j < n && NameEntry(front[j]).Some? ==> Key(NameEntry(front[j]).value.nick) != k by {
        assert forall j :: i < j < n ==> front[j] == items[j];
      }
      AddNamesLatest(users, front, i);
      AddNameKeeps(AddNames(users, front), items[n], k);
    }
  }

  /** A user no item names keeps its entry. */
  lemma {:induction false} AddNamesKeeps(users: map<string, User>, items: seq<string>, k: string)
    requires k in users
    requires forall j :: 0 <= j < |items| && NameEntry(items[j]).Some? ==> Key(NameEntry(items[j]).value.nick) != k
    ensures AddNames(users, items)[k] == users[k]
  {
    if |items| > 0 {
      var n := |items| - 1;
      var front := items[..n];
      assert forall j :: 0 <= j < n && NameEntry(front[j]).Some? ==> Key(NameEntry(front[j]).value.nick) != k by {
        assert forall j :: 0 <= j < n ==> front[j] == items[j];
      }
      AddNamesKeeps(users, front, k);
      AddNameKeeps(AddNames(users, front), items[n], k);
    }
  }

  lemma AddNameKeeps(users: map<string, User>, item: string, k: string)
    requires k in users && (NameEntry(item).Some? ==> Key(NameEntry(item).value.nick) != k)
    ensures AddName(users, item)[k] == users[k]
  {
  }

  /** The result of the loop as written: the users stored so far, and whether it raised. */
  datatype NamesRun = NamesRun(users: map<string, User>, raised: bool)

  /** `track_353_channel_list` as written: the warning for an item that does not fit is not
      followed by `continue`, so reading the groups of the missing match raises, ending the loop
      with the earlier items stored and the later ones lost. */
  function AddNamesAsWritten(users: map<string, User>, items: seq<string>): (r: NamesRun)
    ensures r.raised <==> exists j :: 0 <= j < |items| && NameEntry(items[j]).None?
  {
    if |items| == 0 then NamesRun(users, false)
    else
      var n := |items| - 1;
      var prev := AddNamesAsWritten(users, items[..n]);
      assert forall j :: 0 <= j < n ==> items[..n][j] == items[j];
      if prev.raised then prev
      else
        match NameEntry(items[n])
        case None => NamesRun(prev.users, true)
        case Some(u) => NamesRun(prev.users[Key(u.nick) := u], false)
  }

  /** When every item fits, the loop as written and the intended one agree. */
  lemma {:induction false} AddNamesAsWrittenAgrees(users: map<string, User>, items: seq<string>)
    requires forall j :: 0 <= j < |items| ==> NameEntry(items[j]).Some?
    ensures AddNamesAsWritten(users, items) == NamesRun(AddNames(users, items), false)
  {
    if |items| > 0 {
      var n := |items| - 1;
      var front := items[..n];
      assert forall j :: 0 <= j < n ==> NameEntry(front[j]).Some? by {
        assert forall j :: 0 <= j < n ==> front[j] == items[j];
      }
      AddNamesAsWrittenAgrees(users, front);
      var u := NameEntry(items[n]).value;
      assert AddNamesAsWritten(users, items) == NamesRun(AddNamesAsWritten(users, front).users[Key(u.nick) := u], false);
      assert AddNames(users, items) == AddNames(users, front)[Key(u.nick) := u];
    }
  }

  /** An item that does not fit, then one that does: the loop as written raises before it stores
      the second user, while the intended loop skips the first item and stores it. */
  lemma AddNamesAsWrittenLosesLater(users: map<string, User>, bad: string, good: string)
    requires NameEntry(bad).None? && NameEntry(good).Some?
    requires Key(NameEntry(good).value.nick) !in users
    ensures var items := [bad, good];
      var k := Key(NameEntry(good).value.nick);
      var w := AddNamesAsWritten(users, items);
      w.raised && k !in w.users && k in AddNames(users, items)
  {
    var items := [bad, good];
    assert items[..1] == [bad] && items[1] == good;
    assert [bad][..0] == [];
    assert AddNamesAsWritten(users, items[..1]) == NamesRun(users, true);
    AddNamesNext(users, items, 1);
  }

  /** The names reply "!x alice" loses alice. */
  lemma AddNamesAsWrittenLosesAlice()
    ensures var items := ["!x", "alice"];
      var w := AddNamesAsWritten(map[], items);
      w.raised && "alice" !in w.users && "alice" in AddNames(map[], items)
  {
    NoNameAtBang();
    var u := AliceEntry();
    AddNamesAsWrittenLosesLater(map[], "!x", "alice");
  }

  lemma NoNameAtBang()
    ensures NameEntry("!x").None?
  {
    assert SymbolsEnd("!x") == 0;
  }

  lemma AliceEntry() returns (u: User)
    ensures NameEntry("alice") == Some(u) && Key(u.nick) == "alice"
  {
    var alice := "alice";
    assert forall k :: 0 <= k < |alice| ==> 'a' <= alice[k] <= 'z';
    assert "" + alice + "" == alice;
    MatchNameOf("", alice, "");
    u := NameEntry(alice).value;
    LowerNoUpper(alice);
  }

  // ---------------------------------------------------------------------------------------------
  // Nick changes.

  /** Lines 138-141 as written: store the renamed user under the new nick, then delete the old
      key. When the two nicks differ only in case, the delete removes the user just stored. */
  function RenameAsWritten(users: map<string, User>, oldNick: string, newNick: string, u: User): (r: map<string, User>)
    ensures Key(oldNick) !in r
  {
    users[Key(newNick) := u.(nick := newNick)] - {Key(oldNick)}
  }

  /** "Bob" becoming "bob" loses the user. */
  lemma RenameAsWrittenLosesUser(u: User)
    ensures var r := RenameAsWritten(map[Key("Bob") := u], "Bob", "bob", u);
      "bob" !in r && r == map[]
  {
    assert Key("Bob") == "bob";
    assert Key("bob") == "bob";
  }

  /** A nick change as intended: the user leaves the old key and is stored, renamed, under the
      new one; every other entry stays as it was. */
  function Rename(users: map<string, User>, oldNick: string, newNick: string, u: User): (r: map<string, User>)
    ensures Key(newNick) in r && r[Key(newNick)] == u.(nick := newNick)
    ensures Key(oldNick) != Key(newNick) ==> Key(oldNick) !in r
    ensures forall k :: k != Key(oldNick) && k != Key(newNick) ==> (k in r <==> k in users) && (k in r ==> r[k] == users[k])
    ensures KeyedByNick(users) ==> KeyedByNick(r)
  {
    (users - {Key(oldNick)})[Key(newNick) := u.(nick := newNick)]
  }

  /** The two agree whenever the nicks differ by more than case. */
  lemma RenameAgrees(users: map<string, User>, oldNick: string, newNick: string, u: User)
    requires Key(oldNick) != Key(newNick)
    ensures RenameAsWritten(users, oldNick, newNick, u) == Rename(users, oldNick, newNick, u)
  {
  }

  // ---------------------------------------------------------------------------------------------
  // History.

  /** `deque(maxlen=100)`. */
  const HistoryLimit: nat := 100

  /** One message of the in-memory history. */
  datatype HistoryEntry = HistoryEntry(eventType: EventType, nick: string, time: int, content: Option<string>)

  /** The last `n` elements of `s` (all of them when there are fewer). */
  function Latest<T>(s: seq<T>, n: nat): (r: seq<T>)
    ensures |r| == if |s| <= n then |s| else n
    ensures r == s[|s| - |r|..]
  {
    if |s| <= n then s else s[|s| - n..]
  }

  /** `history.append(entry)` on a deque bounded to 100: the entry goes at the end and, when the
      history is full, the oldest entry is dropped. */
  function Appended(history: seq<HistoryEntry>, entry: HistoryEntry): (r: seq<HistoryEntry>)
    requires |history| <= HistoryLimit
    ensures |r| <= HistoryLimit && |r| > 0 && r[|r| - 1] == entry
    ensures |history| < HistoryLimit ==> r == history + [entry]
    ensures |history| == HistoryLimit ==> r == history[1..] + [entry]
  {
    Latest(history + [entry], HistoryLimit)
  }

  /** Appending entries one at a time. */
  function AppendedAll(history: seq<HistoryEntry>, entries: seq<HistoryEntry>): (r: seq<HistoryEntry>)
    requires |history| <= HistoryLimit
    ensures |r| <= HistoryLimit
  {
    if |entries| == 0 then history
    else
      var n := |entries| - 1;
      Appended(AppendedAll(history, entries[..n]), entries[n])
  }

  /** Whatever was appended, the history is the latest 100 entries, in arrival order. */
  lemma {:induction false} AppendedAllLatest(history: seq<HistoryEntry>, entries: seq<HistoryEntry>)
    requires |history| <= HistoryLimit
    ensures AppendedAll(history, entries) == Latest(history + entries, HistoryLimit)
  {
    if |entries| > 0 {
      var n := |entries| - 1;
      var x := entries[n];
      var prev := AppendedAll(history, entries[..n]);
      var before := history + entries[..n];
      assert AppendedAll(history, entries) == Appended(prev, x);
      AppendedAllLatest(history, entries[..n]);
      AppendedIsLatest(prev, x);
      LatestAppend(before, x, HistoryLimit);
      AppendLast(history, entries);
    }
  }

  lemma AppendedIsLatest(history: seq<HistoryEntry>, x: HistoryEntry)
    requires |history| <= HistoryLimit
    ensures Appended(history, x) == Latest(history + [x], HistoryLimit)
  {
  }

  lemma AppendLast<T>(a: seq<T>, b: seq<T>)
    requires |b| > 0
    ensures a + b == (a + b[..|b| - 1]) + [b[|b| - 1]]
  {
    assert b == b[..|b| - 1] + [b[|b| - 1]];
  }

  lemma LatestAppend<T>(s: seq<T>, x: T, n: nat)
    requires n > 0
    ensures Latest(Latest(s, n) + [x], n) == Latest(s + [x], n)
  {
    var l := Latest(s, n);
    if |s| > n {
      assert l + [x] == (s + [x])[|s| - n..];
      assert (l + [x])[1..] == (s + [x])[|s| + 1 - n..];
    }
  }

  // ---------------------------------------------------------------------------------------------
  // History records in the database.

  /** `_add_history`'s record: the event type's name, then each variable, joined by newlines. */
  function HistoryData(t: EventType, variables: seq<string>): (data: string)
    ensures (forall k :: 0 <= k < |variables| ==> '\n' !in variables[k]) ==>
      Split(data, '\n') == [Name(t)] + variables
  {
    var parts := [Name(t)] + variables;
    assert (forall k :: 0 <= k < |variables| ==> '\n' !in variables[k]) ==> Split(Text.Join(parts, '\n'), '\n') == parts by {
      if forall k :: 0 <= k < |variables| ==> '\n' !in variables[k] {
        assert '\n' !in Name(t);
        assert forall k :: 1 <= k < |parts| ==> parts[k] == variables[k - 1];
        SplitJoin(parts, '\n');
      }
    }
    Text.Join(parts, '\n')
  }

  /** A decoded history record: the score when one was given, the event type and the fields. */
  datatype HistoryRecord = HistoryRecord(score: Option<real>, eventType: EventType, fields: seq<string>)

  /** `_parse_history_data`: the first line names the event type (`other` when it names none), the
      remaining lines are the fields; a zero score counts as no score. */
  function ParseHistoryData(data: string, score: Option<real>): (r: HistoryRecord)
    ensures r.score.Some? <==> score.Some? && score.value != 0.0
    ensures r.score.Some? ==> r.score == score
    ensures FromName(Split(data, '\n')[0]).None? ==> r.eventType == Other
    ensures '\n' !in data ==> r.fields == []
    ensures r.fields == Split(data, '\n')[1..]
    ensures FromName(Split(data, '\n')[0]).Some? ==> r.eventType == FromName(Split(data, '\n')[0]).value
  {
    var split := Split(data, '\n');
    var t := match FromName(split[0]) case Some(t) => t case None => Other;
    var s := if score.Some? && score.value != 0.0 then score else None;
    HistoryRecord(s, t, split[1..])
  }

  /** Nothing of the stored data is lost: its first line and the fields, joined with newlines, give
      the data back. */
  lemma HistoryRejoin(data: string, score: Option<real>)
    ensures Text.Join([Split(data, '\n')[0]] + ParseHistoryData(data, score).fields, '\n') == data
  {
    var split := Split(data, '\n');
    assert [split[0]] + split[1..] == split;
    JoinSplit(data, '\n');
  }

  /** Decoding what `_add_history` stored gives back the event type and the variables, as long as
      no variable holds a newline. */
  lemma HistoryRoundTrip(t: EventType, variables: seq<string>, score: Option<real>)
    requires forall k :: 0 <= k < |variables| ==> '\n' !in variables[k]
    ensures var r := ParseHistoryData(HistoryData(t, variables), score);
      r.eventType == t && r.fields == variables && (r.score.Some? <==> score.Some? && score.value != 0.0)
  {
    FromNameOfName(t);
    assert ([Name(t)] + variables)[1..] == variables;
  }

  // ---------------------------------------------------------------------------------------------
  // The channel.

  class Channel {
    const name: string
    var users: map<string, User>
    var history: seq<HistoryEntry>
    var topic: Option<string>

    /** The history is bounded and every user sits under the key of its own nick. */
    ghost predicate Valid()
      reads this
    {
      |history| <= HistoryLimit && KeyedByNick(users)
    }

    constructor (name: string)
      ensures Valid()
      ensures this.name == name && users == map[] && history == [] && topic == Some("")
    {
      this.name := name;
      users := map[];
      history := [];
      topic := Some("");
    }

    /** `track_message`: the sender must be a member (a missing one raises, changing nothing); the
        sender's mask is learned and the message appended to the history under the stored nick. */
    method TrackMessage(e: ChannelEvent, now: int) returns (ok: bool)
      requires Valid()
      modifies this`users, this`history
      ensures Valid()
      ensures ok <==> Key(e.nick) in old(users)
      ensures !ok ==> users == old(users) && history == old(history)
      ensures ok ==> var u := Learn(old(users)[Key(e.nick)], e);
        && users == old(users)[Key(e.nick) := u]
        && history == Appended(old(history), HistoryEntry(Message, u.nick, now, e.content))
    {
      var key := Key(e.nick);
      if key !in users {
        return false;
      }
      var user := Learn(users[key], e);
      users := users[key := user];
      history := Appended(history, HistoryEntry(Message, user.nick, now, e.content));
      return true;
    }

    /** `track_join`: the sender is stored afresh, with the event's ident, host and mask and no
        mode, replacing any earlier entry. */
    method TrackJoin(e: ChannelEvent)
      requires Valid()
      modifies this`users
      ensures Valid()
      ensures users == old(users)[Key(e.nick) := NewUser(e.nick, e.user, e.host, e.mask, "")]
    {
      users := users[Key(e.nick) := NewUser(e.nick, e.user, e.host, e.mask, "")];
    }

    /** `del self.users[nick]`: a missing nick raises, changing nothing. */
    method Remove(nick: string) returns (ok: bool)
      requires Valid()
      modifies this`users
      ensures Valid()
      ensures ok <==> Key(nick) in old(users)
      ensures users == old(users) - {Key(nick)}
    {
      var key := Key(nick);
      if key !in users {
        return false;
      }
      users := users - {key};
      return true;
    }

    /** `track_part`: the sender leaves. */
    method TrackPart(e: ChannelEvent) returns (ok: bool)
      requires Valid()
      modifies this`users
      ensures Valid()
      ensures ok <==> Key(e.nick) in old(users)
      ensures users == old(users) - {Key(e.nick)}
    {
      ok := Remove(e.nick);
    }

    /** `track_quit`: the sender leaves. */
    method TrackQuit(e: ChannelEvent) returns (ok: bool)
      requires Valid()
      modifies this`users
      ensures Valid()
      ensures ok <==> Key(e.nick) in old(users)
      ensures users == old(users) - {Key(e.nick)}
    {
      ok := Remove(e.nick);
    }

    /** `track_kick`: the kicked user leaves, not the kicker; an event without a target raises. */
    method TrackKick(e: ChannelEvent) returns (ok: bool)
      requires Valid()
      modifies this`users
      ensures Valid()
      ensures ok <==> e.target.Some? && Key(e.target.value) in old(users)
      ensures e.target.None? ==> users == old(users)
      ensures e.target.Some? ==> users == old(users) - {Key(e.target.value)}
    {
      if e.target.None? {
        return false;
      }
      ok := Remove(e.target.value);
    }

    /** `track_nick`: the sender's mask is learned and the same user moves, renamed, from the old
        key to the new one (the new nick is the event's content). */
    method TrackNick(e: ChannelEvent) returns (ok: bool)
      requires Valid()
      modifies this`users
      ensures Valid()
      ensures ok <==> Key(e.nick) in old(users) && e.content.Some?
      ensures !ok ==> users == old(users)
      ensures ok ==> users == Rename(old(users), e.nick, e.content.value, Learn(old(users)[Key(e.nick)], e))
    {
      var key := Key(e.nick);
      if key !in users || e.content.None? {
        return false;
      }
      var user := Learn(users[key], e);
      users := Rename(users, e.nick, e.content.value, user);
      return true;
    }

    /** `track_topic`: the sender must be a member; its mask is learned and the topic becomes the
        event's content. */
    method TrackTopic(e: ChannelEvent) returns (ok: bool)
      requires Valid()
      modifies this`users, this`topic
      ensures Valid()
      ensures ok <==> Key(e.nick) in old(users)
      ensures !ok ==> users == old(users) && topic == old(topic)
      ensures ok ==> users == old(users)[Key(e.nick) := Learn(old(users)[Key(e.nick)], e)] && topic == e.content
    {
      var key := Key(e.nick);
      if key !in users {
        return false;
      }
      users := users[key := Learn(users[key], e)];
      topic := e.content;
      return true;
    }

    /** `track_mode`: the target's mode string takes the change in the second parameter. A missing
        target user, a missing parameter or too short a change raises, changing nothing. */
    method TrackMode(e: ChannelEvent) returns (ok: bool)
      requires Valid()
      modifies this`users
      ensures Valid()
      ensures ok <==> && e.target.Some? && Key(e.target.value) in old(users) && |e.params| >= 2
                      && ApplyMode(old(users)[Key(e.target.value)].mode, e.params[1]).Success?
      ensures !ok ==> users == old(users)
      ensures ok ==> var k := Key(e.target.value); var u := old(users)[k];
        users == old(users)[k := u.(mode := ApplyMode(u.mode, e.params[1]).value)]
    {
      if e.target.None? {
        return false;
      }
      var key := Key(e.target.value);
      if key !in users || |e.params| < 2 {
        return false;
      }
      var user := users[key];
      match ApplyMode(user.mode, e.params[1]) {
        case Failure =>
          return false;
        case Success(mode) =>
          users := users[key := user.(mode := mode)];
          return true;
      }
    }

    /** `track_353_channel_list`, with an item that does not fit skipped: every listed user is
        stored under its bare nick with the mode of its symbols. A reply without content raises. */
    method Track353(e: ChannelEvent) returns (ok: bool)
      requires Valid()
      modifies this`users
      ensures Valid()
      ensures ok <==> e.content.Some?
      ensures !ok ==> users == old(users)
      ensures ok ==> users == AddNames(old(users), SplitWhitespace(e.content.value))
    {
      if e.content.None? {
        return false;
      }
      var items := SplitWhitespace(e.content.value);
      for i := 0 to |items|
        invariant users == AddNames(old(users), items[..i])
        invariant Valid()
      {
        AddNamesNext(old(users), items, i);
        var m := MatchName(items[i]);
        if m.Some? {
          var mode := BuildMode(m.value.0);
          var nick := m.value.1;
          users := users[Key(nick) := NewUser(nick, None, None, None, mode)];
        }
      }
      assert items[..|items|] == items;
      return true;
    }
  }
}
