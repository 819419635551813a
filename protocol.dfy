/** The IRC client protocol: framing of the received stream into CRLF-terminated lines, the parse
    of one line into an event (sender, command, parameters, content, CTCP, channel and target),
    and the truncation of an outgoing line. The regular expressions of the source are written out
    as the splits they perform. */
module Protocol {
  import opened Wrappers
  import opened Events
  import opened Text

  // ---------------------------------------------------------------------------------------------
  // Line head: `:prefix command params` or `command params`.

  /** A line split by `irc_prefix_re` or `irc_noprefix_re`. */
  datatype Head = Head(prefix: Option<string>, command: string, params: string)

  /** A line starting with ':' is `:prefix command params`, any other line is `command params`;
      `None` when the line has too few spaces for its form. */
  function SplitLine(line: string): (r: Option<Head>)
    ensures r.Some? ==> ' ' !in r.value.command && '\n' !in r.value.params
    ensures r.Some? ==> (r.value.prefix.Some? <==> |line| > 0 && line[0] == ':')
    ensures r.Some? && r.value.prefix.Some? ==> ' ' !in r.value.prefix.value
  {
    if |line| > 0 && line[0] == ':' then
      var body := line[1..];
      var i := Find(body, ' ');
      if i == |body| then None
      else
        var rest := body[i + 1..];
        var j := Find(rest, ' ');
        if j == |rest| then None
        else Some(Head(Some(body[..i]), rest[..j], TakeLine(rest[j + 1..])))
    else
      var i := Find(line, ' ');
      if i == |line| then None
      else Some(Head(None, line[..i], TakeLine(line[i + 1..])))
  }

  /** A prefixed line is accepted exactly when it has two spaces, an unprefixed one when it has
      one. */
  lemma SplitLineInvalid(line: string)
    ensures SplitLine(line).None? <==>
      if |line| > 0 && line[0] == ':' then
        ' ' !in line[1..] || ' ' !in line[1..][Find(line[1..], ' ') + 1..]
      else ' ' !in line
  {
  }

  lemma SplitLinePrefixed(p: string, c: string, params: string)
    requires ' ' !in p && ' ' !in c && '\n' !in params
    ensures SplitLine(":" + p + " " + c + " " + params) == Some(Head(Some(p), c, params))
  {
    var rest := c + [' '] + params;
    var body := p + [' '] + rest;
    assert (":" + p + " " + c + " " + params)[1..] == body;
    FindAfter(p, ' ', rest);
    FindAfter(c, ' ', params);
    TakeLineWhole(params);
  }

  lemma TakeLineWhole(s: string)
    requires '\n' !in s
    ensures TakeLine(s) == s
  {
    assert s[..|s|] == s;
  }

  lemma SplitLineUnprefixed(c: string, params: string)
    requires ' ' !in c && '\n' !in params && (|c| == 0 || c[0] != ':')
    ensures SplitLine(c + " " + params) == Some(Head(None, c, params))
  {
    var line := c + " " + params;
    assert line == c + [' '] + params;
    FindAfter(c, ' ', params);
    assert line[..|c|] == c;
    assert line[|c| + 1..] == params;
    assert line[0] != ':' by {
      if |c| == 0 { assert line[0] == ' '; } else { assert line[0] == c[0]; }
    }
    assert TakeLine(params) == params by {
      assert Find(params, '\n') == |params|;
      assert params[..|params|] == params;
    }
  }

  // ---------------------------------------------------------------------------------------------
  // Sender.

  datatype Netmask = Netmask(nick: string, user: string, host: string)

  /** `m` is read off `prefix` as `nick!user@host`: the nick holds neither '!' nor '@', the user
      holds no '@', the prefix starts with nick, "!", user and "@", and the host is the rest of the
      prefix up to the end of its line. */
  predicate NetmaskIn(prefix: string, m: Netmask) {
    var n := |m.nick| + |m.user| + 2;
    && '!' !in m.nick && '@' !in m.nick && '@' !in m.user && '\n' !in m.host
    && n <= |prefix| && prefix[..n] == m.nick + "!" + m.user + "@"
    && m.host == TakeLine(prefix[n..])
  }

  /** `irc_netmask_re`: `nick!user@host`, where the nick holds neither '!' nor '@', the user holds
      no '@', and the host runs to the end of the line. */
  function ParseNetmask(prefix: string): (r: Option<Netmask>)
    ensures r.Some? ==> NetmaskIn(prefix, r.value)
  {
    var i := Find(prefix, '!');
    if i == |prefix| || '@' in prefix[..i] then None
    else
      var rest := prefix[i + 1..];
      var j := Find(rest, '@');
      if j == |rest| then None
      else
        NetmaskSlices(prefix, i, j);
        Some(Netmask(prefix[..i], rest[..j], TakeLine(rest[j + 1..])))
  }

  /** A prefix is no netmask exactly when it has no '!', when an '@' comes before its first '!', or
      when no '@' follows that '!'. */
  lemma ParseNetmaskNone(prefix: string)
    ensures ParseNetmask(prefix).None? <==> var i := Find(prefix, '!');
      i == |prefix| || '@' in prefix[..i] || '@' !in prefix[i + 1..]
  {
  }

  /** The nick ends at the first '!', at `i`, and the user runs to the first '@' after it, at `j`
      of what follows. */
  lemma NetmaskSlices(prefix: string, i: nat, j: nat)
    requires i < |prefix| && prefix[i] == '!' && '!' !in prefix[..i] && '@' !in prefix[..i]
    requires j < |prefix[i + 1..]| && prefix[i + 1..][j] == '@' && '@' !in prefix[i + 1..][..j]
    ensures var rest := prefix[i + 1..];
      NetmaskIn(prefix, Netmask(prefix[..i], rest[..j], TakeLine(rest[j + 1..])))
  {
    var rest := prefix[i + 1..];
    var m := Netmask(prefix[..i], rest[..j], TakeLine(rest[j + 1..]));
    var n := i + j + 2;
    assert |m.nick| + |m.user| + 2 == n;
    assert prefix[..n] == m.nick + "!" + m.user + "@" by {
      assert prefix[..n] == prefix[..i] + [prefix[i]] + rest[..j] + [rest[j]];
    }
    assert prefix[n..] == rest[j + 1..];
  }

  lemma ParseNetmaskOf(n: Netmask)
    requires '!' !in n.nick && '@' !in n.nick && '@' !in n.user && '\n' !in n.host
    ensures ParseNetmask(n.nick + "!" + n.user + "@" + n.host) == Some(n)
  {
    var tail := n.user + ['@'] + n.host;
    assert n.nick + "!" + n.user + "@" + n.host == n.nick + ['!'] + tail;
    ParseNetmaskSplit(n, tail);
  }

  lemma ParseNetmaskSplit(n: Netmask, tail: string)
    requires '!' !in n.nick && '@' !in n.nick && '@' !in n.user && '\n' !in n.host
    requires tail == n.user + ['@'] + n.host
    ensures ParseNetmask(n.nick + ['!'] + tail) == Some(n)
  {
    FindAfter(n.nick, '!', tail);
    FindAfter(n.user, '@', n.host);
    TakeLineWhole(n.host);
  }

  /** nick, user, host and mask of the sender. */
  datatype Sender = Sender(nick: Option<string>, user: Option<string>, host: Option<string>, mask: Option<string>)

  function SenderOf(prefix: Option<string>): (r: Sender)
    ensures prefix.None? ==> r == Sender(None, None, None, None)
    ensures prefix.Some? ==> r.mask == prefix && r.nick.Some?
    ensures prefix.Some? ==> (r.user.Some? <==> ParseNetmask(prefix.value).Some?) && (r.user.Some? <==> r.host.Some?)
    ensures prefix.Some? && ParseNetmask(prefix.value).None? ==> r == Sender(prefix, None, None, prefix)
    ensures prefix.Some? && ParseNetmask(prefix.value).Some? ==> var m := ParseNetmask(prefix.value).value;
      r == Sender(Some(m.nick), Some(m.user), Some(m.host), prefix)
  {
    match prefix
    case None => Sender(None, None, None, None)
    case Some(p) =>
      match ParseNetmask(p)
      case None => Sender(Some(p), None, None, Some(p))
      case Some(m) => Sender(Some(m.nick), Some(m.user), Some(m.host), Some(p))
  }

  // ---------------------------------------------------------------------------------------------
  // Parameters.

  /** A parameter that is not the last: non-empty, no space, no leading ':'. */
  predicate IsMiddle(t: string) {
    |t| > 0 && t[0] != ':' && ' ' !in t
  }

  /** A last parameter may also be a trailing one: ':' followed by anything. */
  predicate IsLast(t: string) {
    IsMiddle(t) || (|t| > 0 && t[0] == ':')
  }

  /** `irc_param_re.findall(params)` on a parameter string (which never holds a '\n'): the
      space-separated words, except that a word starting with ':' takes the rest of the string. */
  function Tokenize(s: string): (ts: seq<string>)
    requires '\n' !in s
    ensures forall k :: 0 <= k < |ts| - 1 ==> IsMiddle(ts[k])
    ensures |ts| > 0 ==> IsLast(ts[|ts| - 1])
    decreases |s|
  {
    if |s| == 0 then []
    else if s[0] == ' ' then Tokenize(s[1..])
    else if s[0] == ':' then [s]
    else
      var e := Find(s, ' ');
      var rest := Tokenize(s[e..]);
      assert IsMiddle(s[..e]);
      [s[..e]] + rest
  }

  /** Joining well-formed parameters with single spaces and tokenizing gives them back. */
  lemma {:induction false} TokenizeJoin(ts: seq<string>)
    requires forall k :: 0 <= k < |ts| - 1 ==> IsMiddle(ts[k])
    requires |ts| > 0 ==> IsLast(ts[|ts| - 1])
    requires forall k :: 0 <= k < |ts| ==> '\n' !in ts[k]
    ensures '\n' !in Text.Join(ts, ' ')
    ensures Tokenize(Text.Join(ts, ' ')) == ts
  {
    if |ts| == 1 {
      assert Text.Join(ts, ' ') == ts[0];
      TokenizeWord(ts[0]);
    } else if |ts| > 1 {
      var t, rest := ts[0], ts[1..];
      TokenizeJoin(rest);
      var j := Text.Join(rest, ' ');
      assert Text.Join(ts, ' ') == t + [' '] + j;
      TokenizeCons(t, j);
    }
  }

  /** A lone last parameter tokenizes to itself. */
  lemma TokenizeWord(t: string)
    requires IsLast(t) && '\n' !in t
    ensures Tokenize(t) == [t]
  {
    if t[0] != ':' {
      assert Find(t, ' ') == |t|;
      assert t[..|t|] == t;
      assert Tokenize(t[|t|..]) == [];
    }
  }

  /** A middle parameter followed by a space and more parameters. */
  lemma TokenizeCons(t: string, j: string)
    requires IsMiddle(t) && '\n' !in t && '\n' !in j
    ensures '\n' !in t + [' '] + j
    ensures Tokenize(t + [' '] + j) == [t] + Tokenize(j)
  {
    var s := t + [' '] + j;
    FindAfter(t, ' ', j);
    assert s[|t|..] == [' '] + j;
    assert ([' '] + j)[1..] == j;
    assert Tokenize(s[|t|..]) == Tokenize(j);
  }

  /** Spaces before a parameter are skipped, however many there are. */
  lemma {:induction false} TokenizeSpaces(sp: string, s: string)
    requires forall k :: 0 <= k < |sp| ==> sp[k] == ' '
    requires '\n' !in s
    ensures '\n' !in sp + s
    ensures Tokenize(sp + s) == Tokenize(s)
    decreases |sp|
  {
    if |sp| > 0 {
      assert (sp + s)[1..] == sp[1..] + s;
      TokenizeSpaces(sp[1..], s);
    } else {
      assert sp + s == s;
    }
  }

  /** A middle parameter ends at the first space, and the spaces after it are skipped. */
  lemma TokenizeConsRun(t: string, sp: string, j: string)
    requires IsMiddle(t) && '\n' !in t && '\n' !in j
    requires |sp| > 0 && forall k :: 0 <= k < |sp| ==> sp[k] == ' '
    ensures '\n' !in t + sp + j
    ensures Tokenize(t + sp + j) == [t] + Tokenize(j)
  {
    var s := t + sp + j;
    assert s == t + [' '] + (sp[1..] + j);
    TokenizeSpaces(sp[1..], j);
    TokenizeCons(t, sp[1..] + j);
  }

  /** A trailing parameter takes the rest of the string, spaces and all. */
  lemma TokenizeTrailing(s: string)
    requires '\n' !in s && |s| > 0 && s[0] == ':'
    ensures Tokenize(s) == [s]
  {
  }

  // ---------------------------------------------------------------------------------------------
  // Event type, content, CTCP.

  /** `irc_command_to_event_type`. */
  const CommandEventTypes: map<string, EventType> := map[
    "PRIVMSG" := Message, "JOIN" := Join, "PART" := Part, "KICK" := Kick,
    "NICK" := Nick, "QUIT" := Quit, "332" := Topic]

  function EventTypeOf(command: string): (t: EventType)
    ensures t == Other <==> command !in CommandEventTypes
    ensures command in CommandEventTypes ==> t == CommandEventTypes[command]
    ensures t != Action
  {
    if command in CommandEventTypes then CommandEventTypes[command] else Other
  }

  /** The command a type of the table comes from, written out type by type: the inverse of the
      table. Action and Other come from no command. */
  function CommandFor(t: EventType): (c: Option<string>)
    ensures c.Some? <==> t != Action && t != Other
  {
    match t
    case Message => Some("PRIVMSG")
    case Join => Some("JOIN")
    case Part => Some("PART")
    case Kick => Some("KICK")
    case Nick => Some("NICK")
    case Quit => Some("QUIT")
    case Topic => Some("332")
    case _ => None
  }

  /** A line's verb gives a type other than Other exactly when it is the command that type comes
      from. */
  lemma EventTypeOfInverse(command: string, t: EventType)
    ensures EventTypeOf(command) == t && t != Other <==> CommandFor(t) == Some(command)
  {
  }

  /** The table maps distinct commands to distinct event types. */
  lemma EventTypeOfInjective(c1: string, c2: string)
    requires c1 in CommandEventTypes && c2 in CommandEventTypes && c1 != c2
    ensures EventTypeOf(c1) != EventTypeOf(c2)
  {
  }

  /** The last parameter without its ':' when it is a trailing one; otherwise the first parameter of
      a NICK (which raises when there is none), otherwise nothing. */
  function ContentOf(params: seq<string>, t: EventType): (r: Result<Option<string>>)
    ensures r.Failure? <==> t == Nick && |params| == 0
    ensures |params| > 0 && |params[|params| - 1]| > 0 && params[|params| - 1][0] == ':' ==>
      r == Success(Some(params[|params| - 1][1..]))
    ensures r.Success? && r.value.Some? ==>
      |params| > 0 && (params[|params| - 1] == [':'] + r.value.value || (t == Nick && r.value.value == params[0]))
    ensures t == Nick && |params| > 0 && !StartsWithColon(params[|params| - 1]) ==> r == Success(Some(params[0]))
    ensures t != Nick && !(|params| > 0 && StartsWithColon(params[|params| - 1])) ==> r == Success(None)
  {
    if |params| > 0 && |params[|params| - 1]| > 0 && params[|params| - 1][0] == ':' then
      assert params[|params| - 1] == [':'] + params[|params| - 1][1..];
      Success(Some(params[|params| - 1][1..]))
    else if t == Nick then
      if |params| == 0 then Failure else Success(Some(params[0]))
    else Success(None)
  }

  /** The CTCP delimiter. */
  const CtcpMark: char := '\U{1}'

  /** Index of the last `c` in `s`. */
  function LastIndex(s: string, c: char): (i: nat)
    requires c in s
    ensures i < |s| && s[i] == c
    ensures forall j :: i < j < |s| ==> s[j] != c
  {
    if s[|s| - 1] == c then |s| - 1 else LastIndex(s[..|s| - 1], c)
  }

  /** `s.split(None, 1)`: the first word and, when anything but whitespace follows it, the rest
      after the whitespace; `None` for a blank string (an empty list). */
  function SplitFirstWord(s: string): (r: Option<(string, Option<string>)>)
    ensures r.None? <==> forall j :: 0 <= j < |s| ==> IsSpace(s[j])
    ensures r.Some? ==> IsWord(r.value.0)
    ensures r.Some? && r.value.1.Some? ==> |r.value.1.value| > 0 && !IsSpace(r.value.1.value[0])
  {
    var t := LStrip(s);
    if |t| == 0 then None
    else
      var e := WordEnd(t);
      var rest := LStrip(t[e..]);
      Some((t[..e], if |rest| == 0 then None else Some(rest)))
  }

  /** `text` is what lies between the first character of `content`, a CTCP mark, and the last
      CTCP mark of `content`. */
  predicate IsCtcpOf(text: string, content: string) {
    && |text| + 2 <= |content|
    && content[..|text| + 2] == [CtcpMark] + text + [CtcpMark]
    && CtcpMark !in content[|text| + 2..]
  }

  /** `content.count("\x01") >= 2 and content.startswith("\x01")`. */
  predicate CtcpShaped(c: string) {
    |c| > 0 && c[0] == CtcpMark && multiset(c)[CtcpMark] >= 2
  }

  /** `content[1:].rsplit("\x01", 1)[0]`: the text between the first mark and the last. */
  function CtcpText(c: string): (text: string)
    requires CtcpShaped(c)
    ensures IsCtcpOf(text, c)
  {
    var inner := c[1..];
    assert CtcpMark in inner by {
      assert c == [c[0]] + inner;
      assert multiset(c) == multiset([c[0]]) + multiset(inner);
    }
    var last := LastIndex(inner, CtcpMark);
    var text := inner[..last];
    assert c[..last + 2] == [c[0]] + inner[..last] + [inner[last]];
    assert c[last + 2..] == inner[last + 1..];
    text
  }

  /** The event type, content and CTCP text after the CTCP check. */
  datatype Ctcp = Ctcp(eventType: EventType, content: Option<string>, ctcp: Option<string>)

  /** A message whose content starts with the CTCP mark and holds at least two of them carries the
      CTCP text between the first and the last mark: an ACTION becomes an action whose content is
      the rest of the text, any other CTCP becomes `other`. A message without content raises, and
      so does a blank CTCP or an ACTION with nothing after it. */
  function CtcpOf(t: EventType, content: Option<string>): (r: Result<Ctcp>)
    ensures t != Message ==> r == Success(Ctcp(t, content, None))
    ensures t == Message && content.None? ==> r.Failure?
    ensures r.Success? && r.value.ctcp.None? ==> r.value == Ctcp(t, content, None)
    ensures r.Success? && r.value.ctcp.Some? ==> t == Message && content.Some? && IsCtcpOf(r.value.ctcp.value, content.value)
    ensures r.Success? && r.value.ctcp.Some? ==> r.value.eventType == Action || r.value.eventType == Other
    ensures r.Success? && r.value.eventType == Action && t != Action ==> r.value.content.Some? && r.value.ctcp.Some?
    ensures r.Success? && r.value.ctcp.Some? ==>
      && SplitFirstWord(r.value.ctcp.value).Some?
      && var w := SplitFirstWord(r.value.ctcp.value).value;
      && (r.value.eventType == Action <==> w.0 == "ACTION")
      && (w.0 == "ACTION" ==> w.1.Some? && r.value.content == w.1)
      && (w.0 != "ACTION" ==> r.value.content == content)
    ensures t == Message && content.Some? && !CtcpShaped(content.value) ==> r == Success(Ctcp(Message, content, None))
    ensures t == Message && content.Some? && CtcpShaped(content.value) ==>
      var w := SplitFirstWord(CtcpText(content.value));
      && (r.Failure? <==> w.None? || (w.value.0 == "ACTION" && w.value.1.None?))
      && (r.Success? ==> r.value.ctcp == Some(CtcpText(content.value)))
  {
    if t != Message then Success(Ctcp(t, content, None))
    else if content.None? then Failure
    else
      var c := content.value;
      if CtcpShaped(c) then
        var text := CtcpText(c);
        match SplitFirstWord(text)
        case None => Failure
        case Some(split) =>
          if split.0 == "ACTION" then
            if split.1.None? then Failure else Success(Ctcp(Action, split.1, Some(text)))
          else Success(Ctcp(Other, content, Some(text)))
      else Success(Ctcp(t, content, None))
  }

  /** `/me waves` arrives as "\x01ACTION waves\x01" and becomes an action with content "waves". */
  lemma CtcpAction(text: string)
    requires |text| > 0 && !IsSpace(text[0]) && CtcpMark !in text
    ensures var c := [CtcpMark] + "ACTION " + text + [CtcpMark];
      CtcpOf(Message, Some(c)) == Success(Ctcp(Action, Some(text), Some("ACTION " + text)))
  {
    var s := "ACTION " + text;
    assert CtcpMark !in s by {
      assert forall j :: 0 <= j < 7 ==> s[j] == "ACTION "[j];
      assert forall j :: 7 <= j < |s| ==> s[j] == text[j - 7];
    }
    assert [CtcpMark] + "ACTION " + text + [CtcpMark] == [CtcpMark] + s + [CtcpMark];
    CtcpWrapped(s);
    SplitFirstWordAction(text);
  }

  /** Unwrapping inverts wrapping: a message "\x01text\x01" carries `text` as its CTCP, and it
      raises exactly when `text` is blank or is a bare ACTION. */
  lemma CtcpUnwraps(text: string)
    requires CtcpMark !in text
    ensures var r := CtcpOf(Message, Some([CtcpMark] + text + [CtcpMark]));
      var w := SplitFirstWord(text);
      && (r.Failure? <==> w.None? || (w.value.0 == "ACTION" && w.value.1.None?))
      && (r.Success? ==> r.value.ctcp == Some(text))
  {
    CtcpWrapped(text);
  }

  /** Content made of a CTCP mark, a text without marks and a closing mark. */
  lemma CtcpWrapped(s: string)
    requires CtcpMark !in s
    ensures var c := [CtcpMark] + s + [CtcpMark];
      CtcpShaped(c) && CtcpText(c) == s
  {
    var c := [CtcpMark] + s + [CtcpMark];
    assert multiset(c) == multiset([CtcpMark]) + multiset(s) + multiset([CtcpMark]);
    assert c[1..] == s + [CtcpMark];
    assert LastIndex(c[1..], CtcpMark) == |s|;
  }

  /** "ACTION " followed by a word-initial text splits into "ACTION" and that text. */
  lemma SplitFirstWordAction(text: string)
    requires |text| > 0 && !IsSpace(text[0])
    ensures SplitFirstWord("ACTION " + text) == Some(("ACTION", Some(text)))
  {
    var s := "ACTION " + text;
    assert LStrip(s) == s;
    ActionWord(text);
    assert LStrip([' '] + text) == text by {
      assert ([' '] + text)[1..] == text;
    }
  }

  /** The verb "ACTION" is the first word, and a single space follows it. */
  lemma ActionWord(text: string)
    ensures var s := "ACTION " + text;
      WordEnd(s) == 6 && s[..6] == "ACTION" && s[6..] == [' '] + text
  {
    var s := "ACTION " + text;
    assert s[6] == ' ';
    assert forall j :: 0 <= j < 6 ==> s[j] == "ACTION"[j];
    WordEndAt(s, 6);
  }

  lemma {:induction false} WordEndAt(s: string, i: nat)
    requires i < |s| && IsSpace(s[i])
    requires forall j :: 0 <= j < i ==> !IsSpace(s[j])
    ensures WordEnd(s) == i
  {
    if i > 0 {
      WordEndAt(s[1..], i - 1);
    }
  }

  // ---------------------------------------------------------------------------------------------
  // Channel and target.

  predicate StartsWithColon(t: string) { |t| > 0 && t[0] == ':' }

  /** A line whose first parameter names where it was sent: there is one, it is not a lone
      trailing parameter, and the line is not a NICK (nor a 353, handled first). */
  predicate AddressedTo(command: string, params: seq<string>, t: EventType) {
    command != "353" && |params| > 0 && (|params| > 2 || !StartsWithColon(params[0])) && t != Nick
  }

  /** The channel of a line: the lowercased third parameter of a 353, the sender (lowercased) of a
      line addressed to the bot, the lowercased first parameter of a line addressed elsewhere, the
      content of a JOIN that only has a trailing parameter. */
  function ChannelOf(command: string, params: seq<string>, t: EventType, content: Option<string>,
                     nick: Option<string>, botNick: string): (r: Result<Option<string>>)
    ensures command == "353" ==> (r.Success? <==> |params| > 2) && (r.Success? ==> r.value == Some(Lower(params[2])))
    ensures AddressedTo(command, params, t) && Lower(params[0]) == Lower(botNick) ==>
      (r.Success? <==> nick.Some?) && (r.Success? ==> r.value == Some(Lower(nick.value)))
    ensures AddressedTo(command, params, t) && Lower(params[0]) != Lower(botNick) ==>
      r == Success(Some(Lower(params[0])))
    ensures command == "JOIN" && (|params| == 0 || (|params| <= 2 && StartsWithColon(params[0]))) ==>
      r == Success(content)
    ensures command != "353" && command != "JOIN" && !AddressedTo(command, params, t) ==> r == Success(None)
  {
    if command == "353" then
      if |params| > 2 then Success(Some(Lower(params[2]))) else Failure
    else if AddressedTo(command, params, t) then
      if Lower(params[0]) == Lower(botNick) then
        if nick.None? then Failure else Success(Some(Lower(nick.value)))
      else Success(Some(Lower(params[0])))
    else if command == "JOIN" then Success(content)
    else Success(None)
  }

  /** The target, and the channel it leaves: KICK targets its second parameter, INVITE its first,
      MODE its third when there are more than two parameters and otherwise its first, in which case
      the channel is cleared. A missing parameter raises. */
  function TargetOf(t: EventType, command: string, params: seq<string>, channel: Option<string>):
    (r: Result<(Option<string>, Option<string>)>)
    ensures t == Kick ==> (r.Success? <==> |params| > 1) && (r.Success? ==> r.value == (Some(params[1]), channel))
    ensures t != Kick && command == "MODE" && |params| > 2 ==> r == Success((Some(params[2]), channel))
    ensures t != Kick && command == "MODE" && |params| <= 2 ==>
      (r.Success? <==> |params| > 0) && (r.Success? ==> r.value == (Some(params[0]), None))
    ensures r.Success? && r.value.1 != channel ==> command == "MODE" && r.value.1.None?
    ensures t != Kick && command == "INVITE" ==>
      (r.Success? <==> |params| > 0) && (r.Success? ==> r.value == (Some(params[0]), channel))
    ensures t != Kick && command != "INVITE" && command != "MODE" ==> r == Success((None, channel))
  {
    if t == Kick then
      if |params| > 1 then Success((Some(params[1]), channel)) else Failure
    else if command == "INVITE" then
      if |params| > 0 then Success((Some(params[0]), channel)) else Failure
    else if command == "MODE" then
      if |params| > 2 then Success((Some(params[2]), channel))
      else if |params| > 0 then Success((Some(params[0]), None))
      else Failure
    else Success((None, channel))
  }

  // ---------------------------------------------------------------------------------------------
  // One line.

  /** The `IrcEvent` built from one line. */
  datatype IrcEvent = IrcEvent(
    eventType: EventType,
    content: Option<string>,
    target: Option<string>,
    channel: Option<string>,
    sender: Sender,
    raw: string,
    command: string,
    params: seq<string>,
    ctcp: Option<string>)

  /** What handling one line did: it was skipped as invalid, it produced an event, or an exception
      escaped. `pong` is the line handed to `send` in answer to a PING, which happens before any
      later step can raise. */
  datatype LineOutcome = Invalid | Parsed(event: IrcEvent, pong: Option<string>) | Raised(pong: Option<string>)

  /** The answer to a PING: "PONG " and its last parameter (a PING without one raises). */
  function PongOf(command: string, params: seq<string>): (r: Result<Option<string>>)
    ensures command != "PING" ==> r == Success(None)
    ensures command == "PING" ==> (r.Success? <==> |params| > 0)
    ensures command == "PING" && |params| > 0 ==> r == Success(Some("PONG " + params[|params| - 1]))
  {
    if command != "PING" then Success(None)
    else if |params| == 0 then Failure
    else Success(Some("PONG " + params[|params| - 1]))
  }

  /** Lines 99-207 of the protocol: the event for the line, after the pong. */
  function BuildEvent(line: string, head: Head, params: seq<string>, botNick: string): (r: Result<IrcEvent>)
    ensures r.Success? ==> r.value.raw == line && r.value.command == head.command && r.value.params == params
    ensures r.Success? ==> r.value.sender == SenderOf(head.prefix)
    ensures r.Success? ==>
      var t := EventTypeOf(head.command);
      && ContentOf(params, t).Success?
      && var c := CtcpOf(t, ContentOf(params, t).value);
      && c.Success?
      && (r.value.eventType, r.value.content, r.value.ctcp) == (c.value.eventType, c.value.content, c.value.ctcp)
      && var channel := ChannelOf(head.command, params, c.value.eventType, c.value.content, r.value.sender.nick, botNick);
      && channel.Success?
      && TargetOf(c.value.eventType, head.command, params, channel.value) == Success((r.value.target, r.value.channel))
    ensures r.Failure? ==>
      var t := EventTypeOf(head.command);
      || ContentOf(params, t).Failure?
      || var c := CtcpOf(t, ContentOf(params, t).value);
      || c.Failure?
      || var channel := ChannelOf(head.command, params, c.value.eventType, c.value.content, SenderOf(head.prefix).nick, botNick);
      || channel.Failure?
      || TargetOf(c.value.eventType, head.command, params, channel.value).Failure?
  {
    var sender := SenderOf(head.prefix);
    var t := EventTypeOf(head.command);
    match ContentOf(params, t)
    case Failure => Failure
    case Success(content) =>
      match CtcpOf(t, content)
      case Failure => Failure
      case Success(c) =>
        match ChannelOf(head.command, params, c.eventType, c.content, sender.nick, botNick)
        case Failure => Failure
        case Success(channel) =>
          match TargetOf(c.eventType, head.command, params, channel)
          case Failure => Failure
          case Success(tc) =>
            Success(IrcEvent(c.eventType, c.content, tc.0, tc.1, sender, line, head.command, params, c.ctcp))
  }

  /** `data_received`'s handling of one line: skipped when neither line regex matches, otherwise
      the pong step and then the event. */
  function ParseLine(line: string, botNick: string): (r: LineOutcome)
    ensures r == Invalid <==> SplitLine(line).None?
    ensures SplitLine(line).Some? ==>
      var head := SplitLine(line).value;
      var params := Tokenize(head.params);
      && (r.Parsed? <==> PongOf(head.command, params).Success? && BuildEvent(line, head, params, botNick).Success?)
      && (r.Parsed? ==> r.event == BuildEvent(line, head, params, botNick).value && r.pong == PongOf(head.command, params).value)
      && (r.Raised? && PongOf(head.command, params).Success? ==> r.pong == PongOf(head.command, params).value)
      && (PongOf(head.command, params).Failure? ==> r == Raised(None))
  {
    match SplitLine(line)
    case None => Invalid
    case Some(head) =>
      var params := Tokenize(head.params);
      match PongOf(head.command, params)
      case Failure => Raised(None)
      case Success(pong) =>
        match BuildEvent(line, head, params, botNick)
        case Failure => Raised(pong)
        case Success(e) => Parsed(e, pong)
  }

  /** A parsed line from `nick!user@host` reports exactly that sender, with the whole prefix as the
      mask. */
  lemma ParseLineSender(n: Netmask, command: string, params: string, botNick: string)
    requires '!' !in n.nick && '@' !in n.nick && '@' !in n.user && '\n' !in n.host
    requires ' ' !in n.nick + "!" + n.user + "@" + n.host && ' ' !in command && '\n' !in params
    ensures var prefix := n.nick + "!" + n.user + "@" + n.host;
      var r := ParseLine(":" + prefix + " " + command + " " + params, botNick);
      r.Parsed? ==> r.event.sender == Sender(Some(n.nick), Some(n.user), Some(n.host), Some(prefix))
  {
    var prefix := n.nick + "!" + n.user + "@" + n.host;
    SplitLinePrefixed(prefix, command, params);
    ParseNetmaskOf(n);
  }

  /** A PING is answered with "PONG " and its last parameter, whatever else the line does. */
  lemma ParseLinePing(line: string, botNick: string)
    requires SplitLine(line).Some? && SplitLine(line).value.command == "PING"
    requires |Tokenize(SplitLine(line).value.params)| > 0
    ensures var ps := Tokenize(SplitLine(line).value.params);
      var r := ParseLine(line, botNick);
      !r.Invalid? && r.pong == Some("PONG " + ps[|ps| - 1])
  {
  }

  // ---------------------------------------------------------------------------------------------
  // Outgoing lines.

  /** Index of the first line boundary of `str.splitlines()`, or `|s|`. */
  function LineEnd(s: string): (i: nat)
    ensures i <= |s|
    ensures forall j :: 0 <= j < i ==> !IsLineBoundary(s[j])
    ensures i < |s| ==> IsLineBoundary(s[i])
  {
    if |s| == 0 || IsLineBoundary(s[0]) then 0 else 1 + LineEnd(s[1..])
  }

  /** `send`: the first line of `line`, cut to 500 characters, with CRLF; an empty line raises
      (`splitlines()` of "" is empty). */
  function Outgoing(line: string): (r: Option<string>)
    ensures r.None? <==> |line| == 0
    ensures r.Some? ==> 2 <= |r.value| <= 502 && |r.value| - 2 <= |line| && r.value[|r.value| - 2..] == "\r\n"
    ensures r.Some? ==> var body := r.value[..|r.value| - 2];
      body == line[..|body|] && forall j :: 0 <= j < |body| ==> !IsLineBoundary(body[j])
    ensures r.Some? && LineEnd(line) <= 500 ==> r.value == line[..LineEnd(line)] + "\r\n"
    ensures r.Some? && LineEnd(line) > 500 ==> r.value == line[..500] + "\r\n"
  {
    if |line| == 0 then None
    else
      var first := line[..LineEnd(line)];
      var cut := if |first| <= 500 then first else first[..500];
      Some(cut + "\r\n")
  }

  // ---------------------------------------------------------------------------------------------
  // Framing.

  predicate CrlfAt(s: string, i: int) {
    0 <= i && i + 1 < |s| && s[i] == '\r' && s[i + 1] == '\n'
  }

  /** Index of the first CRLF, or `|s|` when there is none. */
  function FindCrlf(s: string): (i: nat)
    ensures i <= |s|
    ensures i < |s| ==> CrlfAt(s, i)
    ensures forall j :: 0 <= j < i ==> !CrlfAt(s, j)
    ensures i == |s| ==> forall j :: !CrlfAt(s, j)
  {
    if |s| < 2 then |s|
    else if s[0] == '\r' && s[1] == '\n' then 0
    else
      var k := FindCrlf(s[1..]);
      assert forall j :: 0 < j < |s| ==> (CrlfAt(s, j) <==> CrlfAt(s[1..], j - 1));
      1 + k
  }

  /** The complete lines of a buffer, in order, and the partial line after the last CRLF. */
  function Frames(s: string): (r: (seq<string>, string))
    ensures forall j :: !CrlfAt(r.1, j)
    ensures forall k, j :: 0 <= k < |r.0| ==> !CrlfAt(r.0[k], j)
    decreases |s|
  {
    var i := FindCrlf(s);
    if i == |s| then ([], s)
    else
      var rest := Frames(s[i + 2..]);
      assert forall j :: !CrlfAt(s[..i], j) by {
        forall j ensures !CrlfAt(s[..i], j) {
          if CrlfAt(s[..i], j) { assert CrlfAt(s, j); }
        }
      }
      ([s[..i]] + rest.0, rest.1)
  }

  /** The lines, each followed by CRLF. */
  function Glue(lines: seq<string>): string {
    if |lines| == 0 then "" else lines[0] + "\r\n" + Glue(lines[1..])
  }

  /** Framing loses nothing: the buffer is its lines, each with its CRLF, then the partial line. */
  lemma {:induction false} FramesGlue(s: string)
    ensures Glue(Frames(s).0) + Frames(s).1 == s
    decreases |s|
  {
    var i := FindCrlf(s);
    if i < |s| {
      var line, after := s[..i], s[i + 2..];
      FramesGlue(after);
      FramesStep(s);
      GlueCons(line, Frames(after).0);
      CrlfSplit(s, i);
    }
  }

  /** The buffer around a CRLF. */
  lemma CrlfSplit(s: string, i: nat)
    requires CrlfAt(s, i)
    ensures s == s[..i] + "\r\n" + s[i + 2..]
  {
    assert s[i..i + 2] == "\r\n";
    assert s == s[..i] + s[i..i + 2] + s[i + 2..];
  }

  /** One unfolding of `Frames` at a CRLF. */
  lemma FramesStep(s: string)
    requires FindCrlf(s) < |s|
    ensures var i := FindCrlf(s);
      Frames(s) == ([s[..i]] + Frames(s[i + 2..]).0, Frames(s[i + 2..]).1)
  {
  }

  lemma GlueCons(line: string, lines: seq<string>)
    ensures Glue([line] + lines) == line + "\r\n" + Glue(lines)
  {
    assert ([line] + lines)[1..] == lines;
  }

  /** What `send` writes is framed back into one complete line: the first line of its
      argument, cut to 500 characters, and nothing is left over. */
  lemma OutgoingFramed(line: string)
    requires |line| > 0
    ensures var n := if LineEnd(line) <= 500 then LineEnd(line) else 500;
      Outgoing(line).Some? && Frames(Outgoing(line).value) == ([line[..n]], "")
  {
    var n := if LineEnd(line) <= 500 then LineEnd(line) else 500;
    LineFramed(line[..n]);
  }

  /** A text without line boundaries, followed by CRLF, is one frame. */
  lemma LineFramed(body: string)
    requires forall j :: 0 <= j < |body| ==> !IsLineBoundary(body[j])
    ensures Frames(body + "\r\n") == ([body], "")
  {
    var s := body + "\r\n";
    forall j | 0 <= j < |body| ensures !CrlfAt(s, j) {
      assert s[j] == body[j];
    }
    assert CrlfAt(s, |body|);
    assert FindCrlf(s) == |body|;
    assert s[..|body|] == body;
    assert s[|body| + 2..] == "";
    FramesStep(s);
    var rest := Frames(s[|body| + 2..]);
    assert rest == ([], "");
    assert Frames(s) == ([body] + rest.0, rest.1);
    assert [body] + rest.0 == [body];
  }

  /** The handling of one complete line, for a bot with the given nick. */
  function Handler(botNick: string): (handle: string -> LineOutcome)
    ensures forall line :: handle(line) == ParseLine(line, botNick)
  {
    line => ParseLine(line, botNick)
  }

  /** What `data_received` does with a buffer: parse each complete line in order, stopping after a
      line whose handling raised; the outcomes, and the buffer left behind. */
  function Receive(buf: string, handle: string -> LineOutcome): (r: (seq<LineOutcome>, string))
    decreases |buf|
  {
    var i := FindCrlf(buf);
    if i == |buf| then ([], buf)
    else
      var o := handle(buf[..i]);
      if o.Raised? then ([o], buf[i + 2..])
      else
        var rest := Receive(buf[i + 2..], handle);
        ([o] + rest.0, rest.1)
  }

  /** What is left in the buffer is a suffix of it, and it holds no complete line unless the last
      line handled raised. */
  lemma {:induction false} ReceiveLeftover(buf: string, handle: string -> LineOutcome)
    ensures var r := Receive(buf, handle);
      && |r.1| <= |buf| && r.1 == buf[|buf| - |r.1|..]
      && ((forall j :: !CrlfAt(r.1, j)) || (|r.0| > 0 && r.0[|r.0| - 1].Raised?))
    decreases |buf|
  {
    var i := FindCrlf(buf);
    if i < |buf| && !handle(buf[..i]).Raised? {
      var after := buf[i + 2..];
      ReceiveLeftover(after, handle);
      var rest := Receive(after, handle);
      assert Receive(buf, handle) == ([handle(buf[..i])] + rest.0, rest.1);
      assert after[|after| - |rest.1|..] == buf[|buf| - |rest.1|..];
    }
  }

  function HandleEach(lines: seq<string>, handle: string -> LineOutcome): (r: seq<LineOutcome>)
    ensures |r| == |lines| && forall k :: 0 <= k < |lines| ==> r[k] == handle(lines[k])
  {
    seq(|lines|, k requires 0 <= k < |lines| => handle(lines[k]))
  }

  /** Every complete line is handled once, in arrival order: the outcomes are those of the first
      lines of the buffer, only the last of them may have raised, and the buffer keeps exactly the
      unhandled lines and the partial one. */
  predicate ReceivesFrames(buf: string, handle: string -> LineOutcome) {
    var r := Receive(buf, handle); var f := Frames(buf); var n := |r.0|;
    && n <= |f.0|
    && r.0 == HandleEach(f.0[..n], handle)
    && r.1 == Glue(f.0[n..]) + f.1
    && (forall k :: 0 <= k < n - 1 ==> !r.0[k].Raised?)
    && (n < |f.0| ==> n > 0 && r.0[n - 1].Raised?)
  }

  lemma {:induction false} ReceiveFrames(buf: string, handle: string -> LineOutcome)
    ensures ReceivesFrames(buf, handle)
    decreases |buf|
  {
    var i := FindCrlf(buf);
    if i == |buf| {
      ReceiveNoLine(buf, handle);
    } else if handle(buf[..i]).Raised? {
      ReceiveRaisedLine(buf, handle);
    } else {
      ReceiveFrames(buf[i + 2..], handle);
      ReceiveNextLine(buf, handle);
    }
  }

  lemma ReceiveNoLine(buf: string, handle: string -> LineOutcome)
    requires FindCrlf(buf) == |buf|
    ensures ReceivesFrames(buf, handle)
  {
    assert Receive(buf, handle) == ([], buf);
    assert Frames(buf) == ([], buf);
    assert Frames(buf).0[0..] == [];
  }

  lemma ReceiveRaisedLine(buf: string, handle: string -> LineOutcome)
    requires FindCrlf(buf) < |buf| && handle(buf[..FindCrlf(buf)]).Raised?
    ensures ReceivesFrames(buf, handle)
  {
    var i := FindCrlf(buf);
    var line, after := buf[..i], buf[i + 2..];
    FramesStep(buf);
    ReceiveStep(buf, handle);
    var f, fa := Frames(buf), Frames(after);
    assert f.0[..1] == [line];
    assert f.0[1..] == fa.0;
    FramesGlue(after);
  }

  lemma ReceiveNextLine(buf: string, handle: string -> LineOutcome)
    requires FindCrlf(buf) < |buf| && !handle(buf[..FindCrlf(buf)]).Raised?
    requires ReceivesFrames(buf[FindCrlf(buf) + 2..], handle)
    ensures ReceivesFrames(buf, handle)
  {
    var i := FindCrlf(buf);
    var line, after := buf[..i], buf[i + 2..];
    FramesStep(buf);
    ReceiveStep(buf, handle);
    var ra, fa := Receive(after, handle), Frames(after);
    HandledCons(line, ra.0, ra.1, fa.0, fa.1, handle);
  }

  /** `ReceivesFrames` carried over one more handled line, on the values alone. */
  lemma HandledCons(line: string, outs: seq<LineOutcome>, left: string, lines: seq<string>, partial: string, handle: string -> LineOutcome)
    requires !handle(line).Raised?
    requires |outs| <= |lines| && outs == HandleEach(lines[..|outs|], handle)
    requires left == Glue(lines[|outs|..]) + partial
    requires forall k :: 0 <= k < |outs| - 1 ==> !outs[k].Raised?
    requires |outs| < |lines| ==> |outs| > 0 && outs[|outs| - 1].Raised?
    ensures var r0 := [handle(line)] + outs; var f0 := [line] + lines; var n := |r0|;
      && n <= |f0|
      && r0 == HandleEach(f0[..n], handle)
      && left == Glue(f0[n..]) + partial
      && (forall k :: 0 <= k < n - 1 ==> !r0[k].Raised?)
      && (n < |f0| ==> n > 0 && r0[n - 1].Raised?)
  {
    var n := |outs|;
    var f0 := [line] + lines;
    assert f0[..n + 1] == [line] + lines[..n];
    assert f0[n + 1..] == lines[n..];
    HandleEachCons(line, lines[..n], handle);
  }

  lemma HandleEachCons(line: string, lines: seq<string>, handle: string -> LineOutcome)
    ensures HandleEach([line] + lines, handle) == [handle(line)] + HandleEach(lines, handle)
  {
  }

  /** One unfolding of `Receive` at a CRLF. */
  lemma ReceiveStep(buf: string, handle: string -> LineOutcome)
    requires FindCrlf(buf) < |buf|
    ensures var i := FindCrlf(buf); var o := handle(buf[..i]);
      var after := buf[i + 2..];
      Receive(buf, handle) == if o.Raised? then ([o], after)
        else ([o] + Receive(after, handle).0, Receive(after, handle).1)
  {
  }

  lemma ReceiveNoRaise(buf: string, handle: string -> LineOutcome)
    requires forall k :: 0 <= k < |Receive(buf, handle).0| ==> !Receive(buf, handle).0[k].Raised?
    ensures Receive(buf, handle) == (HandleEach(Frames(buf).0, handle), Frames(buf).1)
    ensures forall j :: !CrlfAt(Receive(buf, handle).1, j)
  {
    ReceiveFrames(buf, handle);
    var f := Frames(buf);
    var n := |Receive(buf, handle).0|;
    assert ReceivesFrames(buf, handle);
    assert n == |f.0|;
    assert f.0[..n] == f.0;
    assert Glue(f.0[n..]) == "";
    assert Receive(buf, handle).1 == f.1;
  }

  /** The protocol object's input buffer. */
  class IrcProtocol {
    var inputBuffer: string

    constructor ()
      ensures inputBuffer == ""
    {
      inputBuffer := "";
    }

    /** `data_received`: appends the data, then handles every complete line in order. An
        exception raised while handling a line escapes, leaving the rest in the buffer. */
    method DataReceived(data: string, botNick: string) returns (outcomes: seq<LineOutcome>)
      modifies this
      ensures (outcomes, inputBuffer) == Receive(old(inputBuffer) + data, Handler(botNick))
    {
      inputBuffer := inputBuffer + data;
      ghost var total := inputBuffer;
      ghost var handle := Handler(botNick);
      outcomes := [];
      assert outcomes + Receive(inputBuffer, handle).0 == Receive(inputBuffer, handle).0;
      while FindCrlf(inputBuffer) < |inputBuffer|
        invariant Receive(total, handle) == (outcomes + Receive(inputBuffer, handle).0, Receive(inputBuffer, handle).1)
        decreases |inputBuffer|
      {
        var i := FindCrlf(inputBuffer);
        var line := inputBuffer[..i];
        ghost var before := inputBuffer;
        inputBuffer := inputBuffer[i + 2..];
        var o := ParseLine(line, botNick);
        assert o == handle(line);
        ReceiveStep(before, handle);
        ghost var prev := outcomes;
        outcomes := outcomes + [o];
        if o.Raised? {
          return;
        }
        assert outcomes + Receive(inputBuffer, handle).0 == prev + ([o] + Receive(inputBuffer, handle).0);
      }
      assert Receive(inputBuffer, handle) == ([], inputBuffer);
      assert outcomes + [] == outcomes;
    }
  }
}
