/** Character and string helpers shared by the IRC parser, the channel tracker and the engine.
    Python's `str` methods used by the source are written out here on `seq<char>`. */
module Text {

  /** The characters Python's `str.isspace()` (and the `\s` class of `re` on `str` patterns)
      accepts: the ASCII whitespace `\t`..`\r`, the separators `\x1c`..`\x1f` and the space, and the
      Unicode spaces and separators. */
  predicate IsSpace(c: char) {
    || c == ' '
    || ('\t' <= c <= '\r')
    || ('\U{1C}' <= c <= '\U{1F}')
    || c == '\U{85}' || c == '\U{A0}' || c == '\U{1680}'
    || ('\U{2000}' <= c <= '\U{200A}')
    || c == '\U{2028}' || c == '\U{2029}' || c == '\U{202F}' || c == '\U{205F}' || c == '\U{3000}'
  }

  /** Line boundaries recognised by Python's `str.splitlines()`. */
  predicate IsLineBoundary(c: char) {
    ('\n' <= c <= '\r') || ('\U{1C}' <= c <= '\U{1E}') || c == '\U{85}' || c == '\U{2028}' || c == '\U{2029}'
  }

  predicate IsUpper(c: char) { 'A' <= c <= 'Z' }

  function LowerChar(c: char): (r: char)
    ensures !IsUpper(r)

    ensures !IsUpper(c) ==> r == c
  {
    if IsUpper(c) then (c as int + 32) as char else c
  }

  /** `str.lower()`, restricted to the ASCII letters. */
  function Lower(s: string): (r: string)
    ensures |r| == |s|
    ensures forall i :: 0 <= i < |s| ==> r[i] == LowerChar(s[i])
  {
    seq(|s|, i requires 0 <= i < |s| => LowerChar(s[i]))
  }

  lemma LowerIdempotent(s: string)
    ensures Lower(Lower(s)) == Lower(s)
  {
  }

  lemma LowerNoUpper(s: string)
    requires forall i :: 0 <= i < |s| ==> !IsUpper(s[i])
    ensures Lower(s) == s
  {
  }

  lemma LowerAppend(a: string, b: string)
    ensures Lower(a + b) == Lower(a) + Lower(b)
  {
  }

  /** Index of the first occurrence of `c`, or `|s|` when there is none. */
  function Find(s: string, c: char): (i: nat)
    ensures i <= |s|
    ensures i < |s| ==> s[i] == c
    ensures forall j :: 0 <= j < i ==> s[j] != c
    ensures i == |s| <==> c !in s
  {
    if |s| == 0 then 0 else if s[0] == c then 0 else 1 + Find(s[1..], c)
  }

  /** What `(.*)` matches without DOTALL: the text up to the first '\n'. */
  function TakeLine(s: string): (r: string)
    ensures |r| <= |s| && r == s[..|r|] && '\n' !in r
    ensures |r| < |s| ==> s[|r|] == '\n'
  {
    s[..Find(s, '\n')]
  }

  /** `s.split(c)`: Python's split on a single separator character; never empty. */
  function Split(s: string, c: char): (parts: seq<string>)
    ensures |parts| >= 1
    ensures forall k :: 0 <= k < |parts| ==> c !in parts[k]
    decreases |s|
  {
    var i := Find(s, c);
    if i == |s| then [s] else [s[..i]] + Split(s[i + 1..], c)
  }

  /** `c.join(parts)`. */
  function Join(parts: seq<string>, c: char): string
  {
    if |parts| == 0 then "" else if |parts| == 1 then parts[0] else parts[0] + [c] + Join(parts[1..], c)
  }

  lemma {:induction false} JoinSplit(s: string, c: char)
    ensures Join(Split(s, c), c) == s
    decreases |s|
  {
    var i := Find(s, c);
    if i < |s| {
      var rest := Split(s[i + 1..], c);
      JoinSplit(s[i + 1..], c);
      assert Split(s, c) == [s[..i]] + rest;
      assert ([s[..i]] + rest)[1..] == rest;
      assert Join([s[..i]] + rest, c) == s[..i] + [c] + Join(rest, c);
      assert s == s[..i] + [c] + s[i + 1..];
    }
  }

  lemma {:induction false} SplitJoin(parts: seq<string>, c: char)
    requires |parts| >= 1
    requires forall k :: 0 <= k < |parts| ==> c !in parts[k]
    ensures Split(Join(parts, c), c) == parts
  {
    if |parts| == 1 {
      assert Find(parts[0], c) == |parts[0]|;
    } else {
      var rest := Join(parts[1..], c);
      var s := parts[0] + [c] + rest;
      FindAfter(parts[0], c, rest);
      assert s[..|parts[0]|] == parts[0];
      assert s[|parts[0]| + 1..] == rest;
      SplitJoin(parts[1..], c);
    }
  }

  lemma FindAfter(a: string, c: char, b: string)
    requires c !in a
    ensures Find(a + [c] + b, c) == |a|
    ensures (a + [c] + b)[..|a|] == a && (a + [c] + b)[|a| + 1..] == b
  {
    var s := a + [c] + b;
    assert forall j :: 0 <= j < |a| ==> s[j] == a[j];
    FindIsFirst(s, c, |a|);
  }

  lemma {:induction false} FindIsFirst(s: string, c: char, i: nat)
    requires i < |s| && s[i] == c
    requires forall j :: 0 <= j < i ==> s[j] != c
    ensures Find(s, c) == i
  {
    if i > 0 {
      FindIsFirst(s[1..], c, i - 1);
    }
  }

  /** Drops leading whitespace (`str.lstrip()`). */
  function LStrip(s: string): (r: string)
    ensures |r| <= |s| && r == s[|s| - |r|..]
    ensures |r| > 0 ==> !IsSpace(r[0])
    ensures forall j :: 0 <= j < |s| - |r| ==> IsSpace(s[j])
  {
    if |s| > 0 && IsSpace(s[0]) then
      var r := LStrip(s[1..]);
      assert s[1..][|s| - 1 - |r|..] == s[|s| - |r|..];
      assert forall j :: 0 < j < |s| - |r| ==> s[j] == s[1..][j - 1];
      r
    else s
  }

  /** Stripping adds no character. */
  lemma {:induction false} LStripKeepsOut(s: string, c: char)
    requires c !in s
    ensures c !in LStrip(s)
  {
    if |s| > 0 && IsSpace(s[0]) {
      assert forall x :: x in s[1..] ==> x in s;
      LStripKeepsOut(s[1..], c);
    }
  }

  /** Drops trailing whitespace (`str.rstrip()`). */
  function RStrip(s: string): (r: string)
    ensures |r| <= |s| && r == s[..|r|]
    ensures |r| > 0 ==> !IsSpace(r[|r| - 1])
    ensures forall j :: |r| <= j < |s| ==> IsSpace(s[j])
  {
    if |s| > 0 && IsSpace(s[|s| - 1]) then RStrip(s[..|s| - 1]) else s
  }

  /** `r` is the slice of `s` that starts at `i`, with only whitespace before and after it,
      and it neither starts nor ends with whitespace. */
  predicate StrippedAt(s: string, i: nat, r: string) {
    && i + |r| <= |s| && r == s[i..i + |r|]
    && (forall j :: 0 <= j < i ==> IsSpace(s[j]))
    && (forall j :: i + |r| <= j < |s| ==> IsSpace(s[j]))
    && Trimmed(r)
  }

  /** Neither the first nor the last character is whitespace. */
  predicate Trimmed(t: string) {
    |t| == 0 || (!IsSpace(t[0]) && !IsSpace(t[|t| - 1]))
  }

  /** `str.strip()`: the slice of `s` left once the leading and the trailing whitespace are cut;
      it starts at the first non-whitespace character, and it is empty only for a blank `s`. */
  function Strip(s: string): (r: string)
    ensures StrippedAt(s, |s| - |LStrip(s)|, r)
    ensures |r| == 0 <==> forall j :: 0 <= j < |s| ==> IsSpace(s[j])
  {
    var l := LStrip(s);
    var r := RStrip(l);
    StripSlice(s, l, r);
    r
  }

  /** Stripping is determined by the description: a non-empty slice with only whitespace
      around it and none at its ends is `Strip(s)`. */
  lemma StripUnique(s: string, i: nat, r: string)
    requires StrippedAt(s, i, r) && |r| > 0
    ensures r == Strip(s)
  {
    var t := Strip(s);
    var i0 := |s| - |LStrip(s)|;
    assert !IsSpace(s[i]);
    assert |t| > 0;
    assert !IsSpace(s[i0]);
    assert i == i0;
    assert !IsSpace(s[i + |r| - 1]) && !IsSpace(s[i + |t| - 1]);
    assert |r| == |t|;
  }

  /** Leading whitespace already cut makes no difference to `strip`. */
  lemma StripLStrip(s: string)
    ensures Strip(LStrip(s)) == Strip(s)
  {
    assert LStrip(LStrip(s)) == LStrip(s);
  }

  lemma StripSlice(s: string, l: string, r: string)
    requires |l| <= |s| && l == s[|s| - |l|..]
    requires |l| > 0 ==> !IsSpace(l[0])
    requires forall j :: 0 <= j < |s| - |l| ==> IsSpace(s[j])
    requires |r| <= |l| && r == l[..|r|]
    requires |r| > 0 ==> !IsSpace(r[|r| - 1])
    requires forall j :: |r| <= j < |l| ==> IsSpace(l[j])
    ensures StrippedAt(s, |s| - |l|, r)
    ensures |r| == 0 <==> forall j :: 0 <= j < |s| ==> IsSpace(s[j])
  {
    var i := |s| - |l|;
    assert forall j :: i <= j < |s| ==> s[j] == l[j - i];
    assert |r| > 0 ==> r[0] == l[0];
  }

  /** Length of the leading run of non-whitespace characters. */
  function WordEnd(s: string): (i: nat)
    ensures i <= |s|
    ensures forall j :: 0 <= j < i ==> !IsSpace(s[j])
    ensures i < |s| ==> IsSpace(s[i])
  {
    if |s| == 0 || IsSpace(s[0]) then 0 else 1 + WordEnd(s[1..])
  }

  predicate IsWord(w: string) {
    |w| > 0 && forall j :: 0 <= j < |w| ==> !IsSpace(w[j])
  }

  /** Text that opens with a non-whitespace character opens with a word. */
  lemma FirstWord(t: string)
    requires |t| > 0 && !IsSpace(t[0])
    ensures 0 < WordEnd(t) && IsWord(t[..WordEnd(t)])
  {
    var e := WordEnd(t);
    assert forall j :: 0 <= j < e ==> t[..e][j] == t[j];
  }

  predicate AllWords(words: seq<string>) {
    forall k :: 0 <= k < |words| ==> IsWord(words[k])
  }

  lemma AllWordsCons(w: string, rest: seq<string>)
    requires IsWord(w) && AllWords(rest)
    ensures AllWords([w] + rest)
  {
    assert forall k :: 1 <= k < |rest| + 1 ==> ([w] + rest)[k] == rest[k - 1];
  }

  /** `s.split()`: the maximal runs of non-whitespace characters, in order. */
  function SplitWhitespace(s: string): (words: seq<string>)
    ensures AllWords(words)
    decreases |s|
  {
    var t := LStrip(s);
    if |t| == 0 then []
    else
      var e := WordEnd(t);
      FirstWord(t);
      var rest := SplitWhitespace(t[e..]);
      AllWordsCons(t[..e], rest);
      [t[..e]] + rest
  }

  /** Leading whitespace is skipped. */
  lemma SplitWhitespaceSpace(s: string)
    requires |s| > 0 && IsSpace(s[0])
    ensures SplitWhitespace(s) == SplitWhitespace(s[1..])
  {
  }

  /** Text made only of whitespace holds no word. */
  lemma {:induction false} SplitWhitespaceBlank(s: string)
    requires forall j :: 0 <= j < |s| ==> IsSpace(s[j])
    ensures SplitWhitespace(s) == []
    decreases |s|
  {
    if |s| > 0 {
      SplitWhitespaceBlank(s[1..]);
    }
  }

  /** A word on its own is a single word. */
  lemma SplitWhitespaceWord(w: string)
    requires IsWord(w)
    ensures SplitWhitespace(w) == [w]
  {
    assert LStrip(w) == w;
    WordEndAll(w);
    assert w[..|w|] == w;
    assert SplitWhitespace(w[|w|..]) == [];
  }

  lemma {:induction false} WordEndAll(w: string)
    requires forall j :: 0 <= j < |w| ==> !IsSpace(w[j])
    ensures WordEnd(w) == |w|
  {
    if |w| > 0 {
      WordEndAll(w[1..]);
    }
  }

  /** The leading word of `a + b` is that of `a` when it ends inside `a`, and all of `a` when `a` has
      no whitespace and `b` is empty or opens with whitespace. */
  lemma {:induction false} WordEndAppend(a: string, b: string)
    requires WordEnd(a) < |a| || |b| == 0 || IsSpace(b[0])
    ensures WordEnd(a + b) == WordEnd(a)
  {
    if |a| > 0 && !IsSpace(a[0]) {
      assert (a + b)[1..] == a[1..] + b;
      WordEndAppend(a[1..], b);
    } else if |a| == 0 {
      assert a + b == b;
    }
  }

  /** Splitting distributes over a concatenation whose seam is whitespace (or an end): a word is
      never glued across it, and none is split by it. Together with SplitWhitespaceBlank and
      SplitWhitespaceWord this pins the words down as the maximal non-whitespace runs, in order. */
  lemma {:induction false} SplitWhitespaceAppend(a: string, b: string)
    requires |a| == 0 || |b| == 0 || IsSpace(a[|a| - 1]) || IsSpace(b[0])
    ensures SplitWhitespace(a + b) == SplitWhitespace(a) + SplitWhitespace(b)
    decreases |a|
  {
    if |a| == 0 {
      assert a + b == b;
    } else if IsSpace(a[0]) {
      assert (a + b)[1..] == a[1..] + b;
      SplitWhitespaceSpace(a);
      SplitWhitespaceSpace(a + b);
      SplitWhitespaceAppend(a[1..], b);
    } else {
      var e := WordEnd(a);
      WordEndAppend(a, b);
      if e < |a| {
        SplitWhitespaceAppend(a[e..], b);
      }
      SplitWhitespaceWordFirst(a, b);
    }
  }

  /** The inductive step of SplitWhitespaceAppend when `a` opens with a word. */
  lemma SplitWhitespaceWordFirst(a: string, b: string)
    requires |a| > 0 && !IsSpace(a[0])
    requires WordEnd(a + b) == WordEnd(a)
    requires WordEnd(a) < |a| ==>
      SplitWhitespace(a[WordEnd(a)..] + b) == SplitWhitespace(a[WordEnd(a)..]) + SplitWhitespace(b)
    requires WordEnd(a) == |a| ==> |b| == 0 || IsSpace(b[0])
    ensures SplitWhitespace(a + b) == SplitWhitespace(a) + SplitWhitespace(b)
  {
    var e := WordEnd(a);
    SplitWhitespaceStep(a);
    SplitWhitespaceStep(a + b);
    SliceAppend(a, b, e);
    if e == |a| {
      assert a[e..] + b == b;
      ConsAppendAssoc(a[..e], SplitWhitespace(a[e..]), SplitWhitespace(b));
    } else {
      ConsAppendAssoc(a[..e], SplitWhitespace(a[e..]), SplitWhitespace(b));
    }
  }

  lemma ConsAppendAssoc(w: string, restA: seq<string>, restB: seq<string>)
    ensures [w] + (restA + restB) == ([w] + restA) + restB
  {
  }

  lemma SliceAppend(a: string, b: string, e: nat)
    requires e <= |a|
    ensures (a + b)[..e] == a[..e] && (a + b)[e..] == a[e..] + b
  {
  }

  /** Text that opens with a word splits into that word and the words of what follows it. */
  lemma SplitWhitespaceStep(s: string)
    requires |s| > 0 && !IsSpace(s[0])
    ensures SplitWhitespace(s) == [s[..WordEnd(s)]] + SplitWhitespace(s[WordEnd(s)..])
  {
    assert LStrip(s) == s;
  }
}
