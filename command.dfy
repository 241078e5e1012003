/// The daemon's command line: the tokenizer, the command sets (each a trie of keywords with a
/// description, a handler per keyword, an optional action for a bare Enter and an optional
/// handler for an arbitrary argument) and `parse_cmd`, which walks the sets token by token and
/// accepts any unambiguous prefix of a keyword. The actions the command sets run (displays,
/// interface settings, exit) are not part of this model; a command set is named by a number,
/// and a parse ends by naming the set whose Enter action runs.
module Command {
  import opened Common

  // ---------------------------------------------------------------------------
  // Tokens

  /// `char::is_whitespace`: the Unicode White_Space characters.
  predicate IsWhitespace(c: char)
  {
    ('\U{0009}' <= c <= '\U{000D}') || c == ' ' || c == '\U{0085}' || c == '\U{00A0}' || c == '\U{1680}'
    || ('\U{2000}' <= c <= '\U{200A}') || c == '\U{2028}' || c == '\U{2029}' || c == '\U{202F}'
    || c == '\U{205F}' || c == '\U{3000}'
  }

  /// `u8::is_ascii_whitespace`: space, tab, line feed, form feed and carriage return (not the
  /// vertical tab).
  predicate IsAsciiWhitespace(c: char)
  {
    c == ' ' || c == '\t' || c == '\n' || c == '\U{000C}' || c == '\r'
  }

  /// `str::trim_start`.
  function TrimStart(s: string): (t: string)
    ensures exists k | 0 <= k <= |s| :: t == s[k..] && forall i | 0 <= i < k :: IsWhitespace(s[i])
    ensures t == [] || !IsWhitespace(t[0])
  {
    if s == [] || !IsWhitespace(s[0]) then
      assert s == s[0..];
      s
    else
      var t := TrimStart(s[1..]);
      var k :| 0 <= k <= |s[1..]| && t == s[1..][k..] && forall i | 0 <= i < k :: IsWhitespace(s[1..][i]);
      assert t == s[k + 1..] && forall i | 0 <= i < k + 1 :: IsWhitespace(s[i]);
      t
  }

  /// `str::trim_end`.
  function TrimEnd(s: string): (t: string)
    ensures exists k | 0 <= k <= |s| :: t == s[..k] && forall i | k <= i < |s| :: IsWhitespace(s[i])
    ensures t == [] || !IsWhitespace(t[|t| - 1])
  {
    if s == [] || !IsWhitespace(s[|s| - 1]) then
      assert s == s[..|s|];
      s
    else
      var pre := s[..|s| - 1];
      var t := TrimEnd(pre);
      var k :| 0 <= k <= |pre| && t == pre[..k] && forall i | k <= i < |pre| :: IsWhitespace(pre[i]);
      assert t == s[..k] && forall i | k <= i < |s| :: IsWhitespace(s[i]);
      t
  }

  /// `str::trim`: the string without its leading and trailing whitespace.
  function Trim(s: string): string
  {
    TrimEnd(TrimStart(s))
  }

  /// Every character of the line is whitespace.
  predicate Blank(s: string)
  {
    forall i | 0 <= i < |s| :: IsWhitespace(s[i])
  }

  /// A line that does not start with whitespace keeps its first character through `trim_end`.
  lemma TrimEndKeepsFirst(t: string)
    requires t != [] && !IsWhitespace(t[0])
    ensures TrimEnd(t) != []
  {
    var first := t[0];
    var k :| 0 <= k <= |t| && TrimEnd(t) == t[..k] && forall i | k <= i < |t| :: IsWhitespace(t[i]);
    assert k > 0 || IsWhitespace(first);
  }

  /// Trimming leaves nothing exactly when the line is all whitespace.
  lemma TrimEmpty(s: string)
    ensures Trim(s) == [] <==> Blank(s)
  {
    var t := TrimStart(s);
    var k :| 0 <= k <= |s| && t == s[k..] && forall i | 0 <= i < k :: IsWhitespace(s[i]);
    if t != [] {
      assert t[0] == s[k];
      TrimEndKeepsFirst(t);
    } else {
      assert k == |s|;
    }
  }

  /// ASCII lower case; other characters are kept as they are.
  function LowerChar(c: char): (d: char)
    ensures ('A' <= c <= 'Z') ==> 'a' <= d <= 'z'
    ensures !('A' <= c <= 'Z') ==> d == c
    ensures IsAsciiWhitespace(d) <==> IsAsciiWhitespace(c)
  {
    if 'A' <= c <= 'Z' then (c as int + 32) as char else c
  }

  function Lower(s: string): (t: string)
    ensures |t| == |s| && forall i | 0 <= i < |s| :: t[i] == LowerChar(s[i])
  {
    seq(|s|, i requires 0 <= i < |s| => LowerChar(s[i]))
  }

  /// The length of the leading run of characters that are not ASCII whitespace.
  function WordLength(s: string): (n: nat)
    ensures n <= |s| && forall i | 0 <= i < n :: !IsAsciiWhitespace(s[i])
    ensures n < |s| ==> IsAsciiWhitespace(s[n])
  {
    if s == [] || IsAsciiWhitespace(s[0]) then 0 else 1 + WordLength(s[1..])
  }

  /// `str::split_ascii_whitespace`.
  function Split(s: string): (ts: seq<string>)
    decreases |s|
  {
    if s == [] then []
    else if IsAsciiWhitespace(s[0]) then Split(s[1..])
    else
      var n := WordLength(s);
      [s[..n]] + Split(s[n..])
  }

  /// The characters of `s` that are not ASCII whitespace, in order.
  function Unspaced(s: string): string
  {
    if s == [] then [] else (if IsAsciiWhitespace(s[0]) then [] else [s[0]]) + Unspaced(s[1..])
  }

  function Concat(ts: seq<string>): string
  {
    if ts == [] then [] else ts[0] + Concat(ts[1..])
  }

  lemma {:induction false} UnspacedAppend(a: string, b: string)
    ensures Unspaced(a + b) == Unspaced(a) + Unspaced(b)
  {
    if a != [] {
      assert (a + b)[0] == a[0] && (a + b)[1..] == a[1..] + b;
      UnspacedAppend(a[1..], b);
    } else {
      assert a + b == b;
    }
  }

  lemma {:induction false} UnspacedWord(s: string)
    requires forall i | 0 <= i < |s| :: !IsAsciiWhitespace(s[i])
    ensures Unspaced(s) == s
  {
    if s != [] {
      UnspacedWord(s[1..]);
    }
  }

  /// Every token is non-empty and free of ASCII whitespace.
  lemma {:induction false} SplitWords(s: string)
    ensures forall t | t in Split(s) :: |t| > 0 && forall i | 0 <= i < |t| :: !IsAsciiWhitespace(t[i])
    decreases |s|
  {
    if s == [] {
    } else if IsAsciiWhitespace(s[0]) {
      SplitWords(s[1..]);
    } else {
      SplitWords(s[WordLength(s)..]);
    }
  }

  /// The tokens spell the input with its ASCII whitespace removed.
  lemma {:induction false} SplitSpells(s: string)
    ensures Concat(Split(s)) == Unspaced(s)
    decreases |s|
  {
    if s == [] {
    } else if IsAsciiWhitespace(s[0]) {
      SplitSpells(s[1..]);
    } else {
      var n := WordLength(s);
      SplitSpells(s[n..]);
      assert s == s[..n] + s[n..];
      UnspacedAppend(s[..n], s[n..]);
      UnspacedWord(s[..n]);
      assert Concat(Split(s)) == s[..n] + Concat(Split(s[n..]));
    }
  }

  /// The tokens `parse_cmd` reads: the trimmed input, lower-cased, split on ASCII whitespace.
  function Tokens(raw: string): seq<string>
  {
    Split(Lower(Trim(raw)))
  }

  // ---------------------------------------------------------------------------
  // Command sets

  /// A command set: descriptions by key (the Enter action is described under `<enter>` and the
  /// argument under a key starting with `<`), the next set for each keyword, whether a bare Enter
  /// has an action, and the next set for an arbitrary argument.
  datatype CommandSet = CommandSet(desc: map<string, string>, handlers: map<string, nat>,
                                   hasEnter: bool, arbitrary: Option<string -> nat>)

  predicate StartsWithLt(k: string)
  {
    |k| > 0 && k[0] == '<'
  }

  /// `CommandSet::new`: the trie holds the description keys that do not start with `<`.
  function TrieKeys(cs: CommandSet): (ks: set<string>)
    ensures forall k :: k in ks <==> k in cs.desc && !StartsWithLt(k)
  {
    set k | k in cs.desc && !StartsWithLt(k)
  }

  /// The menus as the `command!` macro builds them: every set has a description, every keyword
  /// has its handler, and every handler leads to a set of the menu.
  ghost predicate WellFormed(menu: map<nat, CommandSet>)
  {
    forall id | id in menu ::
      && |menu[id].desc| > 0
      && (forall k | k in TrieKeys(menu[id]) :: k in menu[id].handlers && menu[id].handlers[k] in menu)
      && (menu[id].arbitrary.Some? ==> forall s: string :: menu[id].arbitrary.value(s) in menu)
  }

  /// `predictive_search`: the keywords the token is a prefix of.
  function Matches(cs: CommandSet, cmd: string): (m: set<string>)
    ensures m <= TrieKeys(cs)
    ensures forall k :: k in m <==> k in TrieKeys(cs) && cmd <= k
  {
    set k | k in TrieKeys(cs) && cmd <= k
  }

  /// A token ending in `?` asks for help on the keywords it is a prefix of.
  function StripQuestion(tok: string): (r: (string, bool))
    ensures r.1 <==> |tok| > 0 && tok[|tok| - 1] == '?'
    ensures r.0 + (if r.1 then "?" else "") == tok
  {
    if |tok| > 0 && tok[|tok| - 1] == '?' then (tok[..|tok| - 1], true) else (tok, false)
  }

  /// What a command line does: show help entries, report a bad or ambiguous token, report a
  /// line that stops in a set without an Enter action, or run the Enter action of a set.
  datatype Outcome = Help(entries: map<string, string>) | Bad(token: string) | Ambiguous(token: string)
                   | BadAtEnd | EndSlicePanics | Run(target: nat)

  /// What one token does in a set: lead to another set, or end the line with an outcome.
  datatype Step = Continue(next: nat) | Stop(outcome: Outcome)

  lemma Singleton(m: set<string>, k: string)
    requires |m| == 1 && k in m
    ensures m == {k}
  {
    var rest := m - {k};
    assert |rest| == 0;
  }

  /// The element of a one-element set.
  ghost function Only(m: set<string>): (k: string)
    requires |m| == 1
    ensures m == {k}
  {
    var k :| k in m;
    Singleton(m, k);
    k
  }

  /// One round of `parse_cmd`'s loop: `?` shows the set's help; a token that matches no keyword
  /// goes to the argument handler, or is a bad command; a token ending in `?` shows the help of
  /// the keywords it matches; two or more matches are ambiguous; one match leads to its set.
  ghost function StepOn(menu: map<nat, CommandSet>, id: nat, tok: string): (s: Step)
    requires WellFormed(menu) && id in menu
    ensures s.Continue? ==> s.next in menu
    ensures s.Stop? ==> !s.outcome.Run? && !s.outcome.BadAtEnd? && !s.outcome.EndSlicePanics?
    ensures s.Stop? && s.outcome.Help? ==> StripQuestion(tok).1
    ensures s.Stop? && s.outcome.Help? ==> s.outcome.entries.Keys <= menu[id].desc.Keys
  {
    if tok == "?" then Stop(Help(menu[id].desc))
    else
      var (cmd, q) := StripQuestion(tok);
      var m := Matches(menu[id], cmd);
      if m == {} then
        match menu[id].arbitrary
        case Some(f) => Continue(f(cmd))
        case None => Stop(Bad(cmd))
      else if q then Stop(Help(map k | k in m :: menu[id].desc[k]))
      else if |m| > 1 then Stop(Ambiguous(cmd))
      else Continue(menu[id].handlers[Only(m)])
  }

  /// The walk of `parse_cmd` from the set `id` over the remaining tokens.
  ghost function ParseFrom(menu: map<nat, CommandSet>, id: nat, toks: seq<string>): (o: Outcome)
    requires WellFormed(menu) && id in menu
    decreases |toks|
  {
    if toks == [] then
      if menu[id].hasEnter then Run(id) else BadAtEnd
    else
      match StepOn(menu, id, toks[0])
      case Stop(o) => o
      case Continue(next) => ParseFrom(menu, next, toks[1..])
  }

  /// A line that ends in a set without an Enter action is reported with its last byte, sliced
  /// from the trimmed, lower-cased line; the slice panics when that line is empty or ends in a
  /// character of more than one byte.
  function Reported(o: Outcome, line: string): Outcome
  {
    if o.BadAtEnd? && (line == [] || line[|line| - 1] as int >= 0x80) then EndSlicePanics else o
  }

  /// What `parse_cmd` makes of the line `raw`.
  ghost function ParseLine(menu: map<nat, CommandSet>, root: nat, raw: string): Outcome
    requires WellFormed(menu) && root in menu
  {
    Reported(ParseFrom(menu, root, Tokens(raw)), Lower(Trim(raw)))
  }

  /// A blank line given to `parse_cmd` while the root set has no Enter action panics at the
  /// slice of its last byte.
  lemma BlankLinePanics(menu: map<nat, CommandSet>, root: nat, raw: string)
    requires WellFormed(menu) && root in menu && !menu[root].hasEnter && Blank(raw)
    ensures ParseLine(menu, root, raw) == EndSlicePanics
  {
    TrimEmpty(raw);
  }

  /// A line that stops in a set without an Enter action panics exactly when its trimmed,
  /// lower-cased form is empty or ends in a non-ASCII character; any other outcome of the walk
  /// is reported as it is.
  lemma ParseLineReports(menu: map<nat, CommandSet>, root: nat, raw: string)
    requires WellFormed(menu) && root in menu
    ensures ParseLine(menu, root, raw).EndSlicePanics? <==>
              ParseFrom(menu, root, Tokens(raw)).BadAtEnd? &&
              (Lower(Trim(raw)) == [] || Lower(Trim(raw))[|Trim(raw)| - 1] as int >= 0x80)
    ensures !ParseLine(menu, root, raw).EndSlicePanics? ==> ParseLine(menu, root, raw) == ParseFrom(menu, root, Tokens(raw))
  {
    NoPanicInWalk(menu, root, Tokens(raw));
  }

  /// The walk itself never yields the panic outcome.
  lemma {:induction false} NoPanicInWalk(menu: map<nat, CommandSet>, id: nat, toks: seq<string>)
    requires WellFormed(menu) && id in menu
    ensures !ParseFrom(menu, id, toks).EndSlicePanics?
    decreases |toks|
  {
    if toks != [] {
      match StepOn(menu, id, toks[0])
      case Stop(o) =>
      case Continue(next) => NoPanicInWalk(menu, next, toks[1..]);
    }
  }

  /// `parse_cmd` over the command sets `menu`, starting at `root`.
  method ParseCmd(menu: map<nat, CommandSet>, root: nat, raw: string) returns (o: Outcome)
    requires WellFormed(menu) && root in menu
    ensures o == ParseLine(menu, root, raw)
  {
    var tokens := Tokens(raw);
    var id := root;
    var i := 0;
    while i < |tokens|
      invariant 0 <= i <= |tokens| && id in menu
      invariant ParseFrom(menu, id, tokens[i..]) == ParseFrom(menu, root, tokens)
    {
      var tok := tokens[i];
      assert tokens[i..][0] == tok && tokens[i..][1..] == tokens[i + 1..];
      var step := TakeToken(menu, id, tok);
      match step
      case Stop(stopped) =>
        return stopped;
      case Continue(next) =>
        assert ParseFrom(menu, id, tokens[i..]) == ParseFrom(menu, next, tokens[i + 1..]);
        id := next;
        i := i + 1;
    }
    o := Reported(if menu[id].hasEnter then Run(id) else BadAtEnd, Lower(Trim(raw)));
  }

  /// The body of `parse_cmd`'s loop for one token.
  method TakeToken(menu: map<nat, CommandSet>, id: nat, tok: string) returns (s: Step)
    requires WellFormed(menu) && id in menu
    ensures s == StepOn(menu, id, tok)
  {
    if tok == "?" {
      return Stop(Help(menu[id].desc));
    }
    var (cmd, q) := StripQuestion(tok);
    var cs := menu[id];
    var m := Matches(cs, cmd);
    if m == {} {
      if cs.arbitrary.Some? {
        return Continue(cs.arbitrary.value(cmd));
      } else {
        return Stop(Bad(cmd));
      }
    } else if q {
      return Stop(Help(map k | k in m :: cs.desc[k]));
    } else if |m| > 1 {
      return Stop(Ambiguous(cmd));
    } else {
      var k :| k in m;
      Singleton(m, k);
      return Continue(cs.handlers[k]);
    }
  }

  /// A line runs an action only in a set that has an Enter action.
  lemma {:induction false} RunHasEnter(menu: map<nat, CommandSet>, id: nat, toks: seq<string>)
    requires WellFormed(menu) && id in menu
    ensures ParseFrom(menu, id, toks).Run? ==> ParseFrom(menu, id, toks).target in menu
                                                && menu[ParseFrom(menu, id, toks).target].hasEnter
    decreases |toks|
  {
    if toks != [] && StepOn(menu, id, toks[0]).Continue? {
      RunHasEnter(menu, StepOn(menu, id, toks[0]).next, toks[1..]);
    }
  }

  /// Help is shown only for a token that is `?` or ends in `?`, and then shows only entries of
  /// the descriptions of a set of the menu.
  lemma {:induction false} HelpNeedsQuestionMark(menu: map<nat, CommandSet>, id: nat, toks: seq<string>)
    requires WellFormed(menu) && id in menu
    ensures ParseFrom(menu, id, toks).Help? ==> exists i | 0 <= i < |toks| :: StripQuestion(toks[i]).1
    ensures ParseFrom(menu, id, toks).Help? ==>
              exists j | j in menu :: ParseFrom(menu, id, toks).entries.Keys <= menu[j].desc.Keys
    decreases |toks|
  {
    if toks != [] && StepOn(menu, id, toks[0]).Continue? {
      var rest := toks[1..];
      HelpNeedsQuestionMark(menu, StepOn(menu, id, toks[0]).next, rest);
      if ParseFrom(menu, id, toks).Help? {
        var i :| 0 <= i < |rest| && StripQuestion(rest[i]).1;
        assert toks[i + 1] == rest[i];
      }
    } else if toks != [] {
      assert StripQuestion(toks[0]).1 || !ParseFrom(menu, id, toks).Help?;
    }
  }

  /// An unambiguous prefix of a keyword acts as the keyword itself.
  lemma Abbreviation(menu: map<nat, CommandSet>, id: nat, t: string, k: string, rest: seq<string>)
    requires WellFormed(menu) && id in menu
    requires Matches(menu[id], t) == {k}
    requires t != "?" && !StripQuestion(t).1 && !StripQuestion(k).1
    ensures ParseFrom(menu, id, [t] + rest) == ParseFrom(menu, id, [k] + rest)
  {
    assert k in TrieKeys(menu[id]);
    var mk := Matches(menu[id], k);
    assert k in mk;
    forall k' | k' in mk
      ensures k' == k
    {
      assert t <= k;
      assert t <= k';
      assert k' in Matches(menu[id], t);
    }
    assert mk == {k};
    assert ([t] + rest)[1..] == rest && ([k] + rest)[1..] == rest;
  }

  /// Keywords starting with `<` describe arguments and never match a token.
  lemma ArgumentKeysNeverMatch(cs: CommandSet, cmd: string, k: string)
    requires k in cs.desc && StartsWithLt(k)
    ensures k !in Matches(cs, cmd)
  {
  }
}
