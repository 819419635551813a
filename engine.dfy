/** The bot engine's routing: `clean_name`, the recognition of a command in a message, and the
    choice of hooks `Stratus.process` launches for an event, split into the batch that runs first
    and the rest. Running the launches is the plugin manager's business; a launch here is the hook
    and what the engine hands it besides the event. */
module Engine {
  import opened Wrappers
  import opened Events
  import opened Hooks
  import opened Text
  import Seqs
  import Registry
  import PluginManagers

  // ---------------------------------------------------------------------------------------------
  // clean_name.

  /** `re.sub('\s+', '', s)`: every whitespace character removed. */
  function RemoveSpaces(s: string): (r: string)
    ensures |r| <= |s|
    ensures forall i :: 0 <= i < |r| ==> !IsSpace(r[i])
  {
    if |s| == 0 then ""
    else
      var n := |s| - 1;
      var prev := RemoveSpaces(s[..n]);
      if IsSpace(s[n]) then prev else prev + [s[n]]
  }

  /** Only whitespace is removed: every other character is kept as often as it occurs. */
  lemma {:induction false} RemoveSpacesCounts(s: string)
    ensures forall c :: !IsSpace(c) ==> multiset(RemoveSpaces(s))[c] == multiset(s)[c]
  {
    if |s| > 0 {
      var n := |s| - 1;
      RemoveSpacesCounts(s[..n]);
      assert s == s[..n] + [s[n]];
      assert multiset(s) == multiset(s[..n]) + multiset{s[n]};
    }
  }

  /** Nothing to remove leaves the string as it is. */
  lemma {:induction false} RemoveSpacesNone(s: string)
    requires forall i :: 0 <= i < |s| ==> !IsSpace(s[i])
    ensures RemoveSpaces(s) == s
  {
    if |s| > 0 {
      var n := |s| - 1;
      RemoveSpacesNone(s[..n]);
      assert s == s[..n] + [s[n]];
    }
  }

  /** Whitespace is removed character by character: the result of a concatenation is the
      concatenation of the results, so every kept character keeps its place in the order. */
  lemma {:induction false} RemoveSpacesAppend(a: string, b: string)
    ensures RemoveSpaces(a + b) == RemoveSpaces(a) + RemoveSpaces(b)
    decreases |b|
  {
    if |b| == 0 {
      assert a + b == a;
    } else {
      var n := |b| - 1;
      var front, c := b[..n], b[n];
      assert a + b == (a + front) + [c] && b == front + [c];
      RemoveSpacesSnoc(a + front, c);
      RemoveSpacesSnoc(front, c);
      RemoveSpacesAppend(a, front);
      Seqs.AppendAssoc(RemoveSpaces(a), RemoveSpaces(front), if IsSpace(c) then "" else [c]);
    }
  }

  lemma RemoveSpacesSnoc(s: string, c: char)
    ensures RemoveSpaces(s + [c]) == RemoveSpaces(s) + (if IsSpace(c) then "" else [c])
  {
    assert (s + [c])[..|s|] == s;
  }

  /** A single character is dropped when it is whitespace and kept otherwise. */
  lemma RemoveSpacesChar(c: char)
    ensures RemoveSpaces([c]) == if IsSpace(c) then "" else [c]
  {
    assert [c][..0] == "";
  }

  /** `clean_name`: lowercased, with all whitespace removed. Every other character is kept as often
      as it occurs in the lowercased name. */
  function CleanName(n: string): (r: string)
    ensures |r| <= |n|
    ensures forall i :: 0 <= i < |r| ==> !IsSpace(r[i]) && !IsUpper(r[i])
    ensures forall c :: !IsSpace(c) ==> multiset(r)[c] == multiset(Lower(n))[c]
  {
    var r := RemoveSpaces(Lower(n));
    RemoveSpacesCounts(Lower(n));
    assert forall i :: 0 <= i < |r| ==> !IsUpper(r[i]) by {
      forall i | 0 <= i < |r| ensures !IsUpper(r[i]) {
        assert r[i] in multiset(r);
        assert r[i] in multiset(Lower(n));
      }
    }
    r
  }

  /** A name without whitespace or capitals is already clean, and only such a name is. */
  lemma CleanNameFixpoint(n: string)
    ensures CleanName(n) == n <==> forall i :: 0 <= i < |n| ==> !IsSpace(n[i]) && !IsUpper(n[i])
  {
    if forall i :: 0 <= i < |n| ==> !IsSpace(n[i]) && !IsUpper(n[i]) {
      assert Lower(n) == n;
      RemoveSpacesNone(n);
    }
  }

  /** Cleaning works character by character and keeps the order of what it keeps. */
  lemma CleanNameAppend(a: string, b: string)
    ensures CleanName(a + b) == CleanName(a) + CleanName(b)
  {
    LowerAppend(a, b);
    RemoveSpacesAppend(Lower(a), Lower(b));
  }

  /** A single character is dropped when it is whitespace and lowercased otherwise. */
  lemma CleanNameChar(c: char)
    ensures CleanName([c]) == if IsSpace(c) then "" else [LowerChar(c)]
  {
    assert Lower([c]) == [LowerChar(c)];
    RemoveSpacesChar(LowerChar(c));
  }

  /** Cleaning twice is cleaning once. */
  lemma CleanNameIdempotent(n: string)
    ensures CleanName(CleanName(n)) == CleanName(n)
  {
    CleanNameFixpoint(CleanName(n));
  }

  // ---------------------------------------------------------------------------------------------
  // Recognising a command.

  /** `[\w-]` on ASCII text. */
  predicate IsCommandChar(c: char) {
    ('a' <= c <= 'z') || ('A' <= c <= 'Z') || ('0' <= c <= '9') || c == '_' || c == '-'
  }

  predicate IsCommandWord(w: string) {
    |w| > 0 && forall k :: 0 <= k < |w| ==> IsCommandChar(w[k])
  }

  /** Length of the leading run of command characters. */
  function CommandRun(s: string): (i: nat)
    ensures i <= |s| && forall k :: 0 <= k < i ==> IsCommandChar(s[k])
    ensures i < |s| ==> !IsCommandChar(s[i])
  {
    if |s| == 0 || !IsCommandChar(s[0]) then 0 else 1 + CommandRun(s[1..])
  }

  /** `[,;:]`. */
  predicate IsAddressMark(c: char) {
    c == ',' || c == ';' || c == ':'
  }

  /** Length of the leading run of address marks. */
  function MarkRun(s: string): (i: nat)
    ensures i <= |s| && forall k :: 0 <= k < i ==> IsAddressMark(s[k])
    ensures i < |s| ==> !IsAddressMark(s[i])
  {
    if |s| == 0 || !IsAddressMark(s[0]) then 0 else 1 + MarkRun(s[1..])
  }

  /** `$` without MULTILINE: the end of the string, or just before a final newline. */
  predicate AtEnd(s: string, j: nat) {
    j == |s| || (j == |s| - 1 && s[j] == '\n')
  }

  /** `([\w-]+)(?:$|\s+)(.*)` matched at `i`: the command word and the text after it. The word is
      the longest run of command characters, and must be followed by the end or by whitespace. */
  function CommandAt(s: string, i: nat): (r: Option<(string, string)>)
    requires i <= |s|
    ensures r.Some? ==> IsCommandWord(r.value.0) && '\n' !in r.value.1
    ensures r.Some? ==> i + |r.value.0| <= |s| && s[i..i + |r.value.0|] == r.value.0
    ensures r.Some? ==> AtEnd(s, i + |r.value.0|) || IsSpace(s[i + |r.value.0|])
    ensures CommandRun(s[i..]) > 0 && AtEnd(s, i + CommandRun(s[i..])) ==>
      r == Some((s[i..i + CommandRun(s[i..])], ""))
  {
    var j := i + CommandRun(s[i..]);
    if j == i then None
    else if AtEnd(s, j) then Some((s[i..j], ""))
    else if IsSpace(s[j]) then Some((s[i..j], TextAfter(s[j..])))
    else None
  }

  /** `\s+(.*)` on what follows the word: the whitespace run is skipped, then the rest of the
      line is taken. */
  function TextAfter(s: string): (r: string)
    ensures '\n' !in r
  {
    if |s| > 0 && IsSpace(s[0]) then TextAfter(s[1..]) else TakeLine(s)
  }

  /** The text after the word is the first line of what is left once leading whitespace is
      stripped. */
  lemma {:induction false} TextAfterStrips(s: string)
    ensures TextAfter(s) == TakeLine(LStrip(s))
  {
    if |s| > 0 && IsSpace(s[0]) {
      TextAfterStrips(s[1..]);
    }
  }

  /** `[prefix]` under IGNORECASE: the prefix string read as a set of characters. */
  predicate InPrefix(c: char, prefix: string) {
    LowerChar(c) in Lower(prefix)
  }

  /** `[,;:]+\s+`: how far the address marks and the whitespace after them reach into `t`, if it
      opens with them. Both runs are maximal: the marks are `MarkRun(t)` long, and what follows the
      whitespace is the end or a non-whitespace character. */
  function AddressTail(t: string): (r: Option<nat>)
    ensures r.Some? ==> TailEndsAt(t, r.value)
  {
    var p := MarkRun(t);
    if p == 0 || p == |t| || !IsSpace(t[p]) then None
    else
      var rest := LStrip(t[p..]);
      SpaceRun(t, p, rest);
      Some(|t| - |rest|)
  }

  /** `t` opens with its maximal run of at least one mark, then whitespace up to `i`, where the
      whitespace run ends. */
  predicate TailEndsAt(t: string, i: nat) {
    var p := MarkRun(t);
    && 0 < p < i <= |t|
    && (forall k :: p <= k < i ==> IsSpace(t[k]))
    && (i < |t| ==> !IsSpace(t[i]))
  }

  /** An address tail is found exactly when at least one mark opens `t` and whitespace follows
      the marks. */
  lemma AddressTailFound(t: string)
    ensures AddressTail(t).Some? <==> 0 < MarkRun(t) < |t| && IsSpace(t[MarkRun(t)])
  {
  }

  /** The whitespace `LStrip` skips, counted from position `p` of `t`. */
  lemma SpaceRun(t: string, p: nat, rest: string)
    requires p < |t| && IsSpace(t[p]) && rest == LStrip(t[p..])
    ensures p < |t| - |rest| <= |t|
    ensures forall k :: p <= k < |t| - |rest| ==> IsSpace(t[k])
    ensures |rest| > 0 ==> !IsSpace(t[|t| - |rest|])
  {
    var u := t[p..];
    assert forall k :: p <= k < |t| ==> t[k] == u[k - p];
  }

  /** `botnick[,;:]+\s+` under IGNORECASE: where the text after the address starts, if the
      message opens with one. */
  function AddressEnd(s: string, botNick: string): (r: Option<nat>)
    ensures r.Some? <==> NickAt(s, botNick) && AddressTail(s[|botNick|..]).Some?
    ensures r.Some? ==> r.value == |botNick| + AddressTail(s[|botNick|..]).value
    ensures r.Some? ==> |botNick| < r.value <= |s|
  {
    if !NickAt(s, botNick) then None
    else
      var n := |botNick|;
      match AddressTail(s[n..])
      case None => None
      case Some(k) => Some(n + k)
  }

  /** An address is the nick, then the maximal run of marks, then the maximal run of whitespace,
      which ends where the returned index points. */
  lemma AddressEndRuns(s: string, botNick: string)
    requires AddressEnd(s, botNick).Some?
    ensures var r := AddressEnd(s, botNick).value;
      var n := |botNick|; var p := n + MarkRun(s[n..]);
      && NickAt(s, botNick)
      && n < p < r <= |s|
      && (forall k :: n <= k < p ==> IsAddressMark(s[k]))
      && (p < |s| ==> !IsAddressMark(s[p]))
      && (forall k :: p <= k < r ==> IsSpace(s[k]))
      && (r < |s| ==> !IsSpace(s[r]))
  {
    var n := |botNick|;
    AddressShift(s, n, AddressTail(s[n..]).value);
  }

  /** The facts about the tail after the nick, read at the positions of the whole message. */
  lemma AddressShift(s: string, n: nat, k: nat)
    requires n <= |s| && AddressTail(s[n..]) == Some(k)
    ensures var p := n + MarkRun(s[n..]);
      && n < p < n + k <= |s|
      && (forall j :: n <= j < p ==> IsAddressMark(s[j]))
      && (p < |s| ==> !IsAddressMark(s[p]))
      && (forall j :: p <= j < n + k ==> IsSpace(s[j]))
      && (n + k < |s| ==> !IsSpace(s[n + k]))
  {
    var t := s[n..];
    assert forall j :: n <= j < |s| ==> s[j] == t[j - n];
  }

  /** `botnick` under IGNORECASE at the start of `s`. */
  predicate NickAt(s: string, botNick: string) {
    |botNick| <= |s| && Lower(s[..|botNick|]) == Lower(botNick)
  }

  /** `re.match(command_re, content)`: the command word and the text after it. The prefix
      character is tried first; in a private message the prefix may also be left out; the bot's
      nick followed by address marks and whitespace is tried last. */
  function MatchCommand(content: string, botNick: string, prefix: string, private: bool): (r: Option<(string, string)>)
    ensures r.Some? ==> IsCommandWord(r.value.0) && '\n' !in r.value.1
    ensures r.Some? && !private ==> (|content| > 0 && InPrefix(content[0], prefix)) || AddressEnd(content, botNick).Some?
  {
    var viaPrefix := if |content| > 0 && InPrefix(content[0], prefix) then CommandAt(content, 1) else None;
    if viaPrefix.Some? then viaPrefix
    else
      var bare := if private then CommandAt(content, 0) else None;
      if bare.Some? then bare
      else
        match AddressEnd(content, botNick)
        case None => None
        case Some(i) => CommandAt(content, i)
  }

  /** The run of command characters of a word stops where the word does. */
  lemma CommandRunWord(word: string, rest: string)
    requires IsCommandWord(word) && (|rest| == 0 || !IsCommandChar(rest[0]))
    ensures CommandRun(word + rest) == |word|
  {
    var s := word + rest;
    assert forall k :: 0 <= k < |word| ==> s[k] == word[k];
    if |rest| > 0 {
      assert s[|word|] == rest[0];
    }
  }

  /** A run of command characters ended by whitespace that is not a final newline. */
  lemma CommandAtSpace(s: string, i: nat, j: nat)
    requires i < j < |s| && CommandRun(s[i..]) == j - i && IsSpace(s[j]) && !AtEnd(s, j)
    ensures CommandAt(s, i) == Some((s[i..j], TextAfter(s[j..])))
  {
  }

  /** A word after a space: the text is what follows the whitespace. */
  lemma CommandAtWord(s: string, i: nat, word: string, text: string)
    requires i <= |s| && s[i..] == word + (" " + text)
    requires IsCommandWord(word) && '\n' !in text
    ensures CommandAt(s, i) == Some((word, LStrip(text)))
  {
    var j := i + |word|;
    assert j < |s| && s[j] == ' ' && !AtEnd(s, j) by {
      assert s[j] == s[i..][|word|];
    }
    assert CommandRun(s[i..]) == |word| by {
      CommandRunWord(word, " " + text);
    }
    CommandAtSpace(s, i, j);
    assert s[i..j] == word by {
      assert s[i..j] == s[i..][..|word|];
    }
    assert TextAfter(s[j..]) == LStrip(text) by {
      assert s[j..] == " " + text by {
        assert s[j..] == s[i..][|word|..];
      }
      assert (" " + text)[1..] == text;
      TextAfterStrips(text);
      LStripKeepsOut(text, '\n');
    }
  }

  /** `$`: nothing, or a final newline. */
  predicate IsLineEnd(end: string) {
    end == "" || end == "\n"
  }

  /** A word that ends the message, or is followed only by its final newline: the text is
      empty. */
  lemma CommandAtAlone(s: string, i: nat, word: string, end: string)
    requires i <= |s| && s[i..] == word + end
    requires IsCommandWord(word) && IsLineEnd(end)
    ensures CommandAt(s, i) == Some((word, ""))
  {
    CommandRunWord(word, end);
    assert s[i..i + |word|] == word by {
      assert s[i..i + |word|] == s[i..][..|word|];
    }
  }

  /** With a prefix character, the command is recognised in private and in a channel alike. */
  lemma MatchWithPrefix(c: char, word: string, text: string, botNick: string, prefix: string, private: bool)
    requires InPrefix(c, prefix) && IsCommandWord(word) && '\n' !in text
    ensures MatchCommand([c] + word + " " + text, botNick, prefix, private) == Some((word, LStrip(text)))
  {
    var s := [c] + word + " " + text;
    assert s[1..] == word + (" " + text);
    CommandAtWord(s, 1, word, text);
  }

  /** A prefix character and a word alone, with no text: the text is empty. */
  lemma MatchWithPrefixAlone(c: char, word: string, end: string, botNick: string, prefix: string, private: bool)
    requires InPrefix(c, prefix) && IsCommandWord(word) && IsLineEnd(end)
    ensures MatchCommand([c] + word + end, botNick, prefix, private) == Some((word, ""))
  {
    var s := [c] + word + end;
    assert s[1..] == word + end;
    CommandAtAlone(s, 1, word, end);
  }

  /** In a private message the prefix may be left out. */
  lemma MatchBarePrivate(word: string, text: string, botNick: string, prefix: string)
    requires IsCommandWord(word) && !InPrefix(word[0], prefix) && '\n' !in text
    ensures MatchCommand(word + " " + text, botNick, prefix, true) == Some((word, LStrip(text)))
  {
    var s := word + " " + text;
    assert s[0] == word[0];
    assert s[0..] == word + (" " + text);
    CommandAtWord(s, 0, word, text);
  }

  /** In a private message, a bare word alone is a command with no text. */
  lemma MatchBarePrivateAlone(word: string, end: string, botNick: string, prefix: string)
    requires IsCommandWord(word) && !InPrefix(word[0], prefix) && IsLineEnd(end)
    ensures MatchCommand(word + end, botNick, prefix, true) == Some((word, ""))
  {
    var s := word + end;
    assert s[0] == word[0];
    assert s[0..] == word + end;
    CommandAtAlone(s, 0, word, end);
  }

  /** In a channel, a message that neither starts with a prefix character nor addresses the bot
      is no command. */
  lemma MatchChannelNeedsAddress(content: string, botNick: string, prefix: string)
    requires !(|content| > 0 && InPrefix(content[0], prefix)) && AddressEnd(content, botNick).None?
    ensures MatchCommand(content, botNick, prefix, false).None?
  {
  }

  /** A word that runs into a character that is neither a command character nor whitespace is no
      command. */
  lemma CommandAtBlocked(s: string, i: nat, n: nat)
    requires i <= n < |s| && !IsCommandChar(s[n])
    requires forall k :: i <= k <= n ==> !IsSpace(s[k])
    ensures CommandAt(s, i).None?
  {
    var j := i + CommandRun(s[i..]);
    assert j <= n by {
      assert s[i..][n - i] == s[n];
    }
    assert !IsSpace(s[j]);
  }

  /** The nick, one address mark and a space: the address ends after the space. */
  lemma AddressEndMark(s: string, botNick: string, mark: char, rest: string)
    requires s == botNick + [mark, ' '] + rest && IsAddressMark(mark)
    requires |rest| > 0 && !IsSpace(rest[0])
    ensures AddressEnd(s, botNick) == Some(|botNick| + 2)
  {
    var n := |botNick|;
    var marked := [mark, ' '] + rest;
    assert s[..n] == botNick && s[n..] == marked by {
      assert s == botNick + marked;
    }
    AddressTailMark(mark, rest);
    AddressEndAfterNick(s, botNick, 2);
  }

  /** The nick, then an address tail of `k` characters. */
  lemma AddressEndAfterNick(s: string, botNick: string, k: nat)
    requires |botNick| <= |s| && s[..|botNick|] == botNick && AddressTail(s[|botNick|..]) == Some(k)
    ensures AddressEnd(s, botNick) == Some(|botNick| + k)
  {
    NickAtPrefix(s, botNick);
  }

  lemma NickAtPrefix(s: string, botNick: string)
    requires |botNick| <= |s| && s[..|botNick|] == botNick
    ensures NickAt(s, botNick)
  {
  }

  /** One mark and one space before a word: the address spans those two characters. */
  lemma AddressTailMark(mark: char, rest: string)
    requires IsAddressMark(mark) && |rest| > 0 && !IsSpace(rest[0])
    ensures AddressTail([mark, ' '] + rest) == Some(2)
  {
    var t := [mark, ' '] + rest;
    assert t[1..] == [' '] + rest && t[1..][0] == ' ';
    assert MarkRun(t) == 1;
    LStripOneSpace(rest);
  }

  lemma LStripOneSpace(rest: string)
    requires |rest| > 0 && !IsSpace(rest[0])
    ensures LStrip([' '] + rest) == rest
  {
    assert ([' '] + rest)[1..] == rest;
  }

  /** With no prefix character and no bare word to take, an address decides the match. */
  lemma MatchViaAddress(content: string, botNick: string, prefix: string, private: bool, i: nat)
    requires !(|content| > 0 && InPrefix(content[0], prefix))
    requires private ==> CommandAt(content, 0).None?
    requires AddressEnd(content, botNick) == Some(i)
    ensures MatchCommand(content, botNick, prefix, private) == CommandAt(content, i)
  {
  }

  /** What follows the nick and the two characters after it. */
  lemma AfterAddress(botNick: string, mark: char, word: string, text: string)
    ensures (botNick + [mark, ' '] + word + " " + text)[|botNick| + 2..] == word + (" " + text)
  {
  }

  /** Addressing the bot by nick, an address mark and a space introduces a command in private and
      in a channel alike. */
  lemma MatchAddressed(botNick: string, mark: char, word: string, text: string, prefix: string, private: bool)
    requires |botNick| > 0 && !InPrefix(botNick[0], prefix)
    requires forall k :: 0 <= k < |botNick| ==> !IsSpace(botNick[k])
    requires IsAddressMark(mark) && IsCommandWord(word) && '\n' !in text
    ensures MatchCommand(botNick + [mark, ' '] + word + " " + text, botNick, prefix, private) == Some((word, LStrip(text)))
  {
    var s := botNick + [mark, ' '] + word + " " + text;
    var n := |botNick|;
    assert !InPrefix(s[0], prefix) by {
      assert s[0] == botNick[0];
    }
    // The bare word stops inside the nick or at the mark, neither of which is whitespace.
    assert CommandAt(s, 0).None? by {
      assert forall k :: 0 <= k < n ==> s[k] == botNick[k];
      assert s[n] == mark;
      CommandAtBlocked(s, 0, n);
    }
    assert AddressEnd(s, botNick) == Some(n + 2) by {
      var rest := word + " " + text;
      assert s == botNick + [mark, ' '] + rest;
      assert rest[0] == word[0];
      AddressEndMark(s, botNick, mark, rest);
    }
    assert CommandAt(s, n + 2) == Some((word, LStrip(text))) by {
      AfterAddress(botNick, mark, word, text);
      CommandAtWord(s, n + 2, word, text);
    }
    MatchViaAddress(s, botNick, prefix, private, n + 2);
  }

  /** Addressing the bot with a word alone gives that command with no text. */
  lemma MatchAddressedAlone(botNick: string, mark: char, word: string, end: string, prefix: string, private: bool)
    requires |botNick| > 0 && !InPrefix(botNick[0], prefix)
    requires forall k :: 0 <= k < |botNick| ==> !IsSpace(botNick[k])
    requires IsAddressMark(mark) && IsCommandWord(word) && IsLineEnd(end)
    ensures MatchCommand(botNick + [mark, ' '] + word + end, botNick, prefix, private) == Some((word, ""))
  {
    var s := botNick + [mark, ' '] + word + end;
    var n := |botNick|;
    var rest := word + end;
    assert s == botNick + [mark, ' '] + rest;
    AddressedBefore(botNick, mark, rest, prefix);
    CommandAtAlone(s, n + 2, word, end);
    MatchViaAddress(s, botNick, prefix, private, n + 2);
  }

  /** A message opening with the nick, a mark and a space, before a command character: no
      prefix character and no bare word, and the address ends after the space. */
  lemma AddressedBefore(botNick: string, mark: char, rest: string, prefix: string)
    requires |botNick| > 0 && !InPrefix(botNick[0], prefix)
    requires forall k :: 0 <= k < |botNick| ==> !IsSpace(botNick[k])
    requires IsAddressMark(mark) && |rest| > 0 && IsCommandChar(rest[0])
    ensures var s := botNick + [mark, ' '] + rest; var n := |botNick|;
      && !(|s| > 0 && InPrefix(s[0], prefix))
      && CommandAt(s, 0).None?
      && AddressEnd(s, botNick) == Some(n + 2)
      && n + 2 <= |s| && s[n + 2..] == rest
  {
    var s := botNick + [mark, ' '] + rest;
    var n := |botNick|;
    assert s[0] == botNick[0];
    assert CommandAt(s, 0).None? by {
      assert forall k :: 0 <= k < n ==> s[k] == botNick[k];
      assert s[n] == mark;
      CommandAtBlocked(s, 0, n);
    }
    AddressEndMark(s, botNick, mark, rest);
  }

  // ---------------------------------------------------------------------------------------------
  // Choosing the hooks.

  /** The fields of an event the engine reads: its IRC verb (when it came from a raw line), its
      type, and for a message the channel, sender nick and content; and the connection's bot nick
      and command prefix. The channel and the nick are absent on events whose line carries none. */
  datatype EngineEvent = EngineEvent(
    ircCommand: Option<string>,
    eventType: EventType,
    chanName: Option<string>,
    nick: Option<string>,
    content: string,
    botNick: string,
    commandPrefix: string)

  /** The event has both a channel and a sender nick. */
  predicate HasSender(e: EngineEvent) {
    e.chanName.Some? && e.nick.Some?
  }

  /** A message without a channel or a nick: lowercasing the missing one raises, before either
      batch is awaited. */
  predicate Raises(e: EngineEvent) {
    e.eventType == Message && !HasSender(e)
  }

  /** A message sent to the bot itself: its channel is the sender's nick, ignoring case. */
  predicate IsPrivate(e: EngineEvent)
    requires HasSender(e)
  {
    Lower(e.chanName.value) == Lower(e.nick.value)
  }

  /** A recognised command: the lowercased word and the stripped text. */
  datatype CommandCall = CommandCall(command: string, text: string)

  /** The command of a message, when `command_re` matches its content: the matched word,
      lowercased, and the text after it, stripped. */
  function ParseCommand(e: EngineEvent): (r: Option<CommandCall>)
    requires HasSender(e)
    ensures var m := MatchCommand(e.content, e.botNick, e.commandPrefix, IsPrivate(e));
      && (r.Some? <==> m.Some?)
      && (r.Some? ==> r.value.command == Lower(m.value.0) && r.value.text == Strip(m.value.1))
    ensures r.Some? ==> Lower(r.value.command) == r.value.command
    ensures r.Some? ==> Trimmed(r.value.text)
  {
    match MatchCommand(e.content, e.botNick, e.commandPrefix, IsPrivate(e))
    case None => None
    case Some(m) => Some(CallOf(m.0, m.1))
  }

  /** `match.group(1).lower()` and `match.group(2).strip()`. */
  function CallOf(word: string, text: string): (c: CommandCall)
    ensures c.command == Lower(word) && c.text == Strip(text)
    ensures Lower(c.command) == c.command && |c.command| == |word|
    ensures Trimmed(c.text)
  {
    LowerIdempotent(word);
    CommandCall(Lower(word), Strip(text))
  }

  /** A message opening with a prefix character, a word and a space: the command is the word,
      lowercased, and the text after the space, stripped; in private and in a channel alike. */
  lemma ParseCommandPrefixed(e: EngineEvent, c: char, word: string, text: string)
    requires HasSender(e) && e.content == [c] + word + " " + text
    requires InPrefix(c, e.commandPrefix) && IsCommandWord(word) && '\n' !in text
    ensures ParseCommand(e) == Some(CommandCall(Lower(word), Strip(text)))
  {
    MatchWithPrefix(c, word, text, e.botNick, e.commandPrefix, IsPrivate(e));
    StripLStrip(text);
  }

  /** A prefix character and a word that ends the message: the command has an empty text. */
  lemma ParseCommandAlone(e: EngineEvent, c: char, word: string, end: string)
    requires HasSender(e) && e.content == [c] + word + end
    requires InPrefix(c, e.commandPrefix) && IsCommandWord(word) && IsLineEnd(end)
    ensures ParseCommand(e) == Some(CommandCall(Lower(word), ""))
  {
    MatchWithPrefixAlone(c, word, end, e.botNick, e.commandPrefix, IsPrivate(e));
  }

  /** ".Help  args " with the prefix "." is the command "help" with the text "args", in private
      and in a channel alike. */
  lemma ParseCommandHelp(e: EngineEvent)
    requires HasSender(e) && e.content == ".Help  args " && e.commandPrefix == "."
    ensures ParseCommand(e) == Some(CommandCall("help", "args"))
  {
    assert e.content == ['.'] + "Help" + " " + " args ";
    assert InPrefix('.', e.commandPrefix) by {
      assert Lower(e.commandPrefix)[0] == LowerChar('.') == '.';
    }
    HelpWord();
    ParseCommandPrefixed(e, '.', "Help", " args ");
    StripArgs();
  }

  lemma HelpWord()
    ensures IsCommandWord("Help") && Lower("Help") == "help"
  {
    assert Lower("Help")[0] == 'h';
  }

  lemma StripArgs()
    ensures Strip(" args ") == "args"
  {
    var s := " args ";
    assert s[1..5] == "args";
    assert IsSpace(s[0]) && IsSpace(s[5]);
    assert !IsSpace('a') && !IsSpace('s');
    assert StrippedAt(s, 1, "args");
    StripUnique(s, 1, "args");
  }


  /** What the engine hands a hook besides the event: nothing, the command event, or the regex
      event of the pattern that matched. */
  datatype Extra = Plain | ForCommand(call: CommandCall) | ForRegex(pattern: Pattern)

  /** One call of `launch`. */
  datatype Launch = Launch(hook: Hook, extra: Extra)

  /** Each hook of a list, launched on the event alone. */
  function Plains(hooks: seq<Hook>): (ls: seq<Launch>)
    ensures |ls| == |hooks| && forall k :: 0 <= k < |hooks| ==> ls[k] == Launch(hooks[k], Plain)
  {
    seq(|hooks|, k requires 0 <= k < |hooks| => Launch(hooks[k], Plain))
  }

  /** For a raw line: every catch-all hook, then every hook under its verb. */
  function RawLaunches(t: Registry.Tables, e: EngineEvent): seq<Launch> {
    if e.ircCommand.None? then []
    else Plains(t.catchAll) + Plains(Registry.View(t.rawTriggers, e.ircCommand.value))
  }

  /** The hooks for the event's type. */
  function EventLaunches(t: Registry.Tables, e: EngineEvent): seq<Launch> {
    Plains(Registry.View(t.eventTypeHooks, e.eventType))
  }

  /** For a message: the hook of the recognised command, looked up by its lowercased word. */
  function CommandLaunches(t: Registry.Tables, e: EngineEvent): (ls: seq<Launch>)
    ensures |ls| <= 1
    ensures ls != [] <==> e.eventType == Message && HasSender(e) && ParseCommand(e).Some? && ParseCommand(e).value.command in t.commands
    ensures ls != [] ==> ls[0] == Launch(t.commands[ParseCommand(e).value.command], ForCommand(ParseCommand(e).value))
  {
    if e.eventType != Message || !HasSender(e) then []
    else
      match ParseCommand(e)
      case None => []
      case Some(call) => if call.command in t.commands then [Launch(t.commands[call.command], ForCommand(call))] else []
  }

  /** A message with a channel and a nick that opens with a prefix character, a word and a
      space: the hook filed under the lowercased word launches once, with the stripped text as the
      command's text; a word that is no registered alias launches nothing. */
  lemma CommandLaunchesPrefixed(t: Registry.Tables, e: EngineEvent, c: char, word: string, text: string)
    requires e.eventType == Message && HasSender(e) && e.content == [c] + word + " " + text
    requires InPrefix(c, e.commandPrefix) && IsCommandWord(word) && '\n' !in text
    ensures CommandLaunches(t, e) == if Lower(word) in t.commands
      then [Launch(t.commands[Lower(word)], ForCommand(CommandCall(Lower(word), Strip(text))))]
      else []
  {
    ParseCommandPrefixed(e, c, word, text);
  }

  /** For a message: one launch per regex entry whose pattern is found in the content, in table
      order. */
  function RegexLaunches(entries: seq<(Pattern, Hook)>, content: string, matches: (Pattern, string) -> bool): (ls: seq<Launch>)
    ensures |ls| <= |entries|
    ensures forall k :: 0 <= k < |ls| ==> ls[k].extra.ForRegex? && matches(ls[k].extra.pattern, content)
  {
    if |entries| == 0 then []
    else
      var n := |entries| - 1;
      var prev := RegexLaunches(entries[..n], content, matches);
      var entry := entries[n];
      if matches(entry.0, content) then prev + [Launch(entry.1, ForRegex(entry.0))] else prev
  }

  /** When every pattern is found, each entry gives exactly one launch, in order. */
  lemma {:induction false} RegexAllMatch(entries: seq<(Pattern, Hook)>, content: string, matches: (Pattern, string) -> bool)
    requires forall k :: 0 <= k < |entries| ==> matches(entries[k].0, content)
    ensures var ls := RegexLaunches(entries, content, matches);
      |ls| == |entries| && forall k :: 0 <= k < |entries| ==> ls[k] == Launch(entries[k].1, ForRegex(entries[k].0))
  {
    if |entries| > 0 {
      var n := |entries| - 1;
      assert forall k :: 0 <= k < n ==> entries[..n][k] == entries[k];
      RegexAllMatch(entries[..n], content, matches);
    }
  }

  /** A hook registered under two patterns that are both found is launched twice. */
  lemma RegexTwice(h: Hook, p1: Pattern, p2: Pattern, content: string, matches: (Pattern, string) -> bool)
    requires matches(p1, content) && matches(p2, content)
    ensures RegexLaunches([(p1, h), (p2, h)], content, matches) == [Launch(h, ForRegex(p1)), Launch(h, ForRegex(p2))]
  {
    RegexAllMatch([(p1, h), (p2, h)], content, matches);
  }

  /** For a message with a channel and a nick: the command's launch, then those of the regex
      hooks; nothing otherwise. */
  function MessageLaunches(t: Registry.Tables, e: EngineEvent, matches: (Pattern, string) -> bool): seq<Launch> {
    if e.eventType == Message && HasSender(e) then CommandLaunches(t, e) + RegexLaunches(t.regexHooks, e.content, matches) else []
  }

  /** Every launch `process` makes for the event, in the order it makes them, when it does not
      raise. */
  function Selected(t: Registry.Tables, e: EngineEvent, matches: (Pattern, string) -> bool): seq<Launch> {
    RawLaunches(t, e) + EventLaunches(t, e) + MessageLaunches(t, e, matches)
  }

  /** Every regex launch comes from an entry of the table whose pattern is found. */
  lemma {:induction false} RegexLaunchesFrom(entries: seq<(Pattern, Hook)>, content: string, matches: (Pattern, string) -> bool, l: Launch)
    requires l in RegexLaunches(entries, content, matches)
    ensures l.extra.ForRegex? && (l.extra.pattern, l.hook) in entries && matches(l.extra.pattern, content)
  {
    var n := |entries| - 1;
    if l in RegexLaunches(entries[..n], content, matches) {
      RegexLaunchesFrom(entries[..n], content, matches, l);
      assert entries[..n] <= entries;
    }
  }

  /** Every launch `process` makes comes from the tables: a launch on the event alone is a
      catch-all hook, a hook under the event's verb or a hook of the event's type; a command launch
      is the hook filed under the recognised alias; a regex launch is a (pattern, hook) entry whose
      pattern is found in the content. Commands and regexes are considered for messages only. */
  lemma SelectedFrom(t: Registry.Tables, e: EngineEvent, matches: (Pattern, string) -> bool, l: Launch)
    requires l in Selected(t, e, matches)
    ensures l.extra.Plain? ==>
      || l.hook in t.catchAll
      || (e.ircCommand.Some? && l.hook in Registry.View(t.rawTriggers, e.ircCommand.value))
      || l.hook in Registry.View(t.eventTypeHooks, e.eventType)
    ensures l.extra.ForCommand? ==>
      e.eventType == Message && l.extra.call.command in t.commands && l.hook == t.commands[l.extra.call.command]
    ensures l.extra.ForRegex? ==>
      e.eventType == Message && (l.extra.pattern, l.hook) in t.regexHooks && matches(l.extra.pattern, e.content)
  {
    var raw, ev := RawLaunches(t, e), EventLaunches(t, e);
    if l in raw {
      PlainFrom(t.catchAll, l);
      if e.ircCommand.Some? {
        PlainFrom(Registry.View(t.rawTriggers, e.ircCommand.value), l);
      }
    } else if l in ev {
      PlainFrom(Registry.View(t.eventTypeHooks, e.eventType), l);
    } else if l in CommandLaunches(t, e) {
    } else {
      RegexLaunchesFrom(t.regexHooks, e.content, matches, l);
    }
  }

  lemma PlainFrom(hooks: seq<Hook>, l: Launch)
    ensures l in Plains(hooks) ==> l.extra.Plain? && l.hook in hooks
  {
  }

  /** Commands and regex hooks are considered only for messages: any other event launches its raw
      hooks and its event-type hooks, all on the event alone. */
  lemma SelectedNonMessage(t: Registry.Tables, e: EngineEvent, matches: (Pattern, string) -> bool)
    requires e.eventType != Message
    ensures Selected(t, e, matches) == RawLaunches(t, e) + EventLaunches(t, e)
    ensures forall l :: l in Selected(t, e, matches) ==> l.extra == Plain
  {
    assert RawLaunches(t, e) + EventLaunches(t, e) + [] == RawLaunches(t, e) + EventLaunches(t, e);
  }

  /** For a raw line, each catch-all hook and each hook under the verb is launched as often as it
      is listed there, that is once for a hook listed once; a message line alike, since its
      command and regex launches carry an extra event. */
  lemma SelectedRaw(t: Registry.Tables, e: EngineEvent, matches: (Pattern, string) -> bool, h: Hook)
    requires e.ircCommand.Some?
    requires h !in Registry.View(t.eventTypeHooks, e.eventType)
    ensures multiset(Selected(t, e, matches))[Launch(h, Plain)]
      == multiset(t.catchAll)[h] + multiset(Registry.View(t.rawTriggers, e.ircCommand.value))[h]
  {
    PlainsCount(t.catchAll, h);
    PlainsCount(Registry.View(t.rawTriggers, e.ircCommand.value), h);
    PlainsCount(Registry.View(t.eventTypeHooks, e.eventType), h);
    MessageNotPlain(t, e, matches);
  }

  /** The command and regex launches of a message all carry an extra event. */
  lemma MessageNotPlain(t: Registry.Tables, e: EngineEvent, matches: (Pattern, string) -> bool)
    ensures forall l :: l in MessageLaunches(t, e, matches) ==> !l.extra.Plain?
  {
    forall l | l in MessageLaunches(t, e, matches)
      ensures !l.extra.Plain?
    {
      if l !in CommandLaunches(t, e) {
        RegexLaunchesFrom(t.regexHooks, e.content, matches, l);
      }
    }
  }

  lemma {:induction false} PlainsCount(hooks: seq<Hook>, h: Hook)
    ensures multiset(Plains(hooks))[Launch(h, Plain)] == multiset(hooks)[h]
  {
    if |hooks| > 0 {
      var n := |hooks| - 1;
      PlainsCount(hooks[..n], h);
      assert hooks == hooks[..n] + [hooks[n]];
      assert Plains(hooks) == Plains(hooks[..n]) + [Launch(hooks[n], Plain)];
    }
  }

  // ---------------------------------------------------------------------------------------------
  // The two batches.

  /** The launches whose hook has `run_first` equal to `runFirst`, in order. */
  function Batch(ls: seq<Launch>, runFirst: bool): (r: seq<Launch>)
    ensures |r| <= |ls|
    ensures forall k :: 0 <= k < |r| ==> r[k].hook.runFirst == runFirst && r[k] in ls
  {
    if |ls| == 0 then []
    else
      var n := |ls| - 1;
      var prev := Batch(ls[..n], runFirst);
      assert forall x :: x in ls[..n] ==> x in ls;
      if ls[n].hook.runFirst == runFirst then prev + [ls[n]] else prev
  }

  lemma {:induction false} BatchConcat(a: seq<Launch>, b: seq<Launch>, runFirst: bool)
    ensures Batch(a + b, runFirst) == Batch(a, runFirst) + Batch(b, runFirst)
    decreases |b|
  {
    if |b| > 0 {
      var n := |b| - 1;
      BatchConcat(a, b[..n], runFirst);
      assert (a + b)[..|a| + n] == a + b[..n];
    } else {
      assert a + b == a;
    }
  }

  /** The batches split the launches: each launch goes to exactly one of them. */
  lemma {:induction false} BatchPartition(ls: seq<Launch>)
    ensures multiset(Batch(ls, true)) + multiset(Batch(ls, false)) == multiset(ls)
  {
    if |ls| > 0 {
      var n := |ls| - 1;
      var x := ls[n];
      BatchPartition(ls[..n]);
      MultisetSnoc(ls[..n], x);
      assert ls[..n] + [x] == ls;
      var t, f := Batch(ls[..n], true), Batch(ls[..n], false);
      BatchAppend(ls[..n], x);
      if x.hook.runFirst {
        MultisetSnoc(t, x);
      } else {
        MultisetSnoc(f, x);
      }
    }
  }

  lemma MultisetSnoc(s: seq<Launch>, x: Launch)
    ensures multiset(s + [x]) == multiset(s) + multiset{x}
  {
  }

  /** The hook loops of lines 146-164: each launch is appended to the first batch or to the rest. */
  method Enqueue(first: seq<Launch>, tasks: seq<Launch>, ls: seq<Launch>) returns (first': seq<Launch>, tasks': seq<Launch>)
    ensures first' == first + Batch(ls, true) && tasks' == tasks + Batch(ls, false)
  {
    first', tasks' := first, tasks;
    for i := 0 to |ls|
      invariant first' == first + Batch(ls[..i], true) && tasks' == tasks + Batch(ls[..i], false)
    {
      var l := ls[i];
      assert ls[..i + 1] == ls[..i] + [l];
      BatchAppend(ls[..i], l);
      if l.hook.runFirst {
        Seqs.AppendAssoc(first, Batch(ls[..i], true), [l]);
        first' := first' + [l];
      } else {
        Seqs.AppendAssoc(tasks, Batch(ls[..i], false), [l]);
        tasks' := tasks' + [l];
      }
    }
    assert ls[..|ls|] == ls;
  }

  /** The regex loop of lines 189-196: each entry whose pattern is found in the content is
      launched, into the first batch or into the rest. */
  method EnqueueRegex(first: seq<Launch>, tasks: seq<Launch>, entries: seq<(Pattern, Hook)>, content: string, matches: (Pattern, string) -> bool)
    returns (first': seq<Launch>, tasks': seq<Launch>)
    ensures first' == first + Batch(RegexLaunches(entries, content, matches), true)
    ensures tasks' == tasks + Batch(RegexLaunches(entries, content, matches), false)
  {
    first', tasks' := first, tasks;
    for i := 0 to |entries|
      invariant first' == first + Batch(RegexLaunches(entries[..i], content, matches), true)
      invariant tasks' == tasks + Batch(RegexLaunches(entries[..i], content, matches), false)
    {
      ghost var prev := RegexLaunches(entries[..i], content, matches);
      RegexLaunchesNext(entries, i, content, matches);
      var entry := entries[i];
      if matches(entry.0, content) {
        var l := Launch(entry.1, ForRegex(entry.0));
        BatchAppend(prev, l);
        if l.hook.runFirst {
          Seqs.AppendAssoc(first, Batch(prev, true), [l]);
          first' := first' + [l];
        } else {
          Seqs.AppendAssoc(tasks, Batch(prev, false), [l]);
          tasks' := tasks' + [l];
        }
      }
    }
    assert entries[..|entries|] == entries;
  }

  /** Entry `i` adds its launch at the end of those of the entries before it exactly when its
      pattern is found. */
  lemma RegexLaunchesNext(entries: seq<(Pattern, Hook)>, i: nat, content: string, matches: (Pattern, string) -> bool)
    requires i < |entries|
    ensures var prev := RegexLaunches(entries[..i], content, matches);
      var entry := entries[i];
      RegexLaunches(entries[..i + 1], content, matches)
        == if matches(entry.0, content) then prev + [Launch(entry.1, ForRegex(entry.0))] else prev
  {
    assert entries[..i + 1][..i] == entries[..i];
  }

  /** A launch appended at the end joins its own batch, at its end. */
  lemma BatchAppend(ls: seq<Launch>, l: Launch)
    ensures Batch(ls + [l], true) == if l.hook.runFirst then Batch(ls, true) + [l] else Batch(ls, true)
    ensures Batch(ls + [l], false) == if l.hook.runFirst then Batch(ls, false) else Batch(ls, false) + [l]
  {
    assert (ls + [l])[..|ls|] == ls;
  }

  /** Both batches of a concatenation are the batches of its parts, concatenated. */
  lemma BatchesConcat(a: seq<Launch>, b: seq<Launch>)
    ensures Batch(a + b, true) == Batch(a, true) + Batch(b, true)
    ensures Batch(a + b, false) == Batch(a, false) + Batch(b, false)
  {
    BatchConcat(a, b, true);
    BatchConcat(a, b, false);
  }

  /** The raw-hook branch of lines 144-157: the catch-all hooks, then those under the verb. */
  method EnqueueRaw(loader: PluginManagers.PluginManager, e: EngineEvent, first: seq<Launch>, tasks: seq<Launch>)
    returns (first': seq<Launch>, tasks': seq<Launch>)
    ensures first' == first + Batch(RawLaunches(loader.Tables(), e), true)
    ensures tasks' == tasks + Batch(RawLaunches(loader.Tables(), e), false)
  {
    first', tasks' := first, tasks;
    if e.ircCommand.Some? {
      var verb := e.ircCommand.value;
      ghost var catchAll := Plains(loader.catchAllTriggers);
      ghost var byVerb := Plains(Registry.View(loader.rawTriggers, verb));
      first', tasks' := Enqueue(first', tasks', Plains(loader.catchAllTriggers));
      if verb in loader.rawTriggers {
        first', tasks' := Enqueue(first', tasks', Plains(loader.rawTriggers[verb]));
      } else {
        assert byVerb == [];
      }
      BatchesConcat(catchAll, byVerb);
      Seqs.AppendAssoc(first, Batch(catchAll, true), Batch(byVerb, true));
      Seqs.AppendAssoc(tasks, Batch(catchAll, false), Batch(byVerb, false));
    }
  }

  /** The event-type loop of lines 159-164: the hooks registered for the event's type. */
  method EnqueueEvent(loader: PluginManagers.PluginManager, e: EngineEvent, first: seq<Launch>, tasks: seq<Launch>)
    returns (first': seq<Launch>, tasks': seq<Launch>)
    ensures first' == first + Batch(EventLaunches(loader.Tables(), e), true)
    ensures tasks' == tasks + Batch(EventLaunches(loader.Tables(), e), false)
  {
    first', tasks' := first, tasks;
    if e.eventType in loader.eventTypeHooks {
      first', tasks' := Enqueue(first', tasks', Plains(loader.eventTypeHooks[e.eventType]));
    } else {
      assert first' == first + [] && tasks' == tasks + [];
    }
  }

  /** The message branch of lines 166-196: the private-message test, which raises when the
      channel or the nick is missing, then the command's hook and the regex hooks. */
  method EnqueueMessage(loader: PluginManagers.PluginManager, e: EngineEvent, matches: (Pattern, string) -> bool,
                        first: seq<Launch>, tasks: seq<Launch>)
    returns (first': seq<Launch>, tasks': seq<Launch>, raised: bool)
    requires e.eventType == Message
    ensures raised <==> !HasSender(e)
    ensures raised ==> first' == first && tasks' == tasks
    ensures !raised ==> first' == first + Batch(MessageLaunches(loader.Tables(), e, matches), true)
    ensures !raised ==> tasks' == tasks + Batch(MessageLaunches(loader.Tables(), e, matches), false)
  {
    first', tasks' := first, tasks;
    if !HasSender(e) {
      return first', tasks', true;
    }
    raised := false;
    ghost var command := CommandLaunches(loader.Tables(), e);
    ghost var regex := RegexLaunches(loader.regexHooks, e.content, matches);
    var call := ParseCommand(e);
    if call.Some? && call.value.command in loader.commands {
      var l := Launch(loader.commands[call.value.command], ForCommand(call.value));
      assert command == [l];
      if l.hook.runFirst {
        first' := first' + [l];
      } else {
        tasks' := tasks' + [l];
      }
    }
    assert first' == first + Batch(command, true) && tasks' == tasks + Batch(command, false);
    first', tasks' := EnqueueRegex(first', tasks', loader.regexHooks, e.content, matches);
    BatchesConcat(command, regex);
    Seqs.AppendAssoc(first, Batch(command, true), Batch(regex, true));
    Seqs.AppendAssoc(tasks, Batch(command, false), Batch(regex, false));
  }

  /** `Stratus.process`, up to the two `gather` calls: the launches it makes for the event, split
      into the `run_first` batch, awaited before the other, and the rest. A message without a
      channel or a nick raises before the gathers, so no launch is awaited and both batches are
      empty. */
  method Process(loader: PluginManagers.PluginManager, e: EngineEvent, matches: (Pattern, string) -> bool)
    returns (first: seq<Launch>, tasks: seq<Launch>, raised: bool)
    ensures raised <==> Raises(e)
    ensures raised ==> first == [] && tasks == []
    ensures !raised ==> first == Batch(Selected(loader.Tables(), e, matches), true)
    ensures !raised ==> tasks == Batch(Selected(loader.Tables(), e, matches), false)
  {
    ghost var t := loader.Tables();
    ghost var raw, event, message := RawLaunches(t, e), EventLaunches(t, e), MessageLaunches(t, e, matches);
    first, tasks := EnqueueRaw(loader, e, [], []);
    assert first == Batch(raw, true) && tasks == Batch(raw, false);
    first, tasks := EnqueueEvent(loader, e, first, tasks);
    raised := false;
    if e.eventType == Message {
      first, tasks, raised := EnqueueMessage(loader, e, matches, first, tasks);
      if raised {
        return [], [], true;
      }
    } else {
      assert first == first + Batch(message, true) && tasks == tasks + Batch(message, false);
    }
    BatchesConcat(raw, event);
    BatchesConcat(raw + event, message);
  }
}
