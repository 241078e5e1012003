/// The command line's editor and history: a line buffer with a cursor edited key by key until
/// Enter, a history of the last 50 non-blank lines, and the main loop that records each
/// non-blank line and hands it to `parse_cmd`. Drawing on the terminal is not part of this
/// model; key events and entered lines are parameters.
module LineEdit {
  import opened Common
  import opened Command

  // ---------------------------------------------------------------------------
  // Editing

  /// A key event: a character (with whether Control was held), or an editing key.
  datatype Key = CharKey(c: char, control: bool) | BackspaceKey | LeftKey | RightKey | UpKey | DownKey
               | EnterKey | OtherKey

  predicate IsInterrupt(k: Key)
  {
    k.CharKey? && k.c == 'c' && k.control
  }

  /// The buffer and the cursor, counted in characters.
  datatype EditorState = EditorState(buffer: seq<char>, cursor: nat)

  predicate InRange(st: EditorState)
  {
    st.cursor <= |st.buffer|
  }

  /// The text before and after the cursor.
  function Before(st: EditorState): seq<char>
    requires InRange(st)
  {
    st.buffer[..st.cursor]
  }

  function After(st: EditorState): seq<char>
    requires InRange(st)
  {
    st.buffer[st.cursor..]
  }

  /// One key of `read_line`: a character is inserted at the cursor, which moves past it;
  /// Backspace deletes the character before the cursor; Left and Right move the cursor, held
  /// inside the line; every other key (Up and Down included) changes nothing.
  function Edit(st: EditorState, k: Key): (r: EditorState)
    requires InRange(st)
    ensures InRange(r)
    ensures k.CharKey? && !IsInterrupt(k) ==> Before(r) == Before(st) + [k.c] && After(r) == After(st)
    ensures k.BackspaceKey? && st.cursor > 0 ==> Before(r) == Before(st)[..st.cursor - 1] && After(r) == After(st)
    ensures k.LeftKey? && st.cursor > 0 ==> r.buffer == st.buffer && r.cursor == st.cursor - 1
    ensures k.RightKey? && st.cursor < |st.buffer| ==> r.buffer == st.buffer && r.cursor == st.cursor + 1
    ensures (k.BackspaceKey? || k.LeftKey?) && st.cursor == 0 ==> r == st
    ensures k.RightKey? && st.cursor == |st.buffer| ==> r == st
    ensures !k.CharKey? && !k.BackspaceKey? && !k.LeftKey? && !k.RightKey? ==> r == st
    ensures IsInterrupt(k) ==> r == st
  {
    match k
    case CharKey(c, control) =>
      if IsInterrupt(k) then st
      else
        var b := st.buffer[..st.cursor] + [c] + st.buffer[st.cursor..];
        assert b[..st.cursor + 1] == st.buffer[..st.cursor] + [c];
        assert b[st.cursor + 1..] == st.buffer[st.cursor..];
        EditorState(b, st.cursor + 1)
    case BackspaceKey =>
      if st.cursor > 0 then
        var b := st.buffer[..st.cursor - 1] + st.buffer[st.cursor..];
        assert b[..st.cursor - 1] == st.buffer[..st.cursor][..st.cursor - 1];
        assert b[st.cursor - 1..] == st.buffer[st.cursor..];
        EditorState(b, st.cursor - 1)
      else st
    case LeftKey => if st.cursor > 0 then EditorState(st.buffer, st.cursor - 1) else st
    case RightKey => if st.cursor < |st.buffer| then EditorState(st.buffer, st.cursor + 1) else st
    case _ => st
  }

  /// Left undoes Right, and Backspace undoes a typed character.
  lemma EditInverses(st: EditorState, c: char)
    requires InRange(st)
    ensures st.cursor < |st.buffer| ==> Edit(Edit(st, RightKey), LeftKey) == st
    ensures c != 'c' ==> Edit(Edit(st, CharKey(c, true)), BackspaceKey) == st
    ensures Edit(Edit(st, CharKey(c, false)), BackspaceKey) == st
  {
    var typed := Edit(st, CharKey(c, false));
    assert typed.buffer == Before(typed) + After(typed);
    assert st.buffer == Before(st) + After(st);
  }

  /// How reading a line ends: with the line, with the interrupt key (the exit command runs),
  /// or not yet, in an editor state.
  datatype LineResult = Line(line: seq<char>) | Interrupted | Pending(state: EditorState)

  /// `read_line` from the editor state `st` over the key events `keys`.
  function ReadFrom(st: EditorState, keys: seq<Key>): (r: LineResult)
    requires InRange(st)
    ensures r.Pending? ==> InRange(r.state)
    decreases |keys|
  {
    if keys == [] then Pending(st)
    else if IsInterrupt(keys[0]) then Interrupted
    else if keys[0].EnterKey? then Line(st.buffer)
    else ReadFrom(Edit(st, keys[0]), keys[1..])
  }

  /// The keys that type `s`.
  function TypeKeys(s: seq<char>): (ks: seq<Key>)
    ensures |ks| == |s|
  {
    if s == [] then [] else [CharKey(s[0], false)] + TypeKeys(s[1..])
  }

  /// Typing a string at the end of the line and pressing Enter appends it to the line.
  lemma {:induction false} TypingAppends(b: seq<char>, s: seq<char>)
    ensures ReadFrom(EditorState(b, |b|), TypeKeys(s) + [EnterKey]) == Line(b + s)
    decreases |s|
  {
    if s == [] {
      assert TypeKeys(s) + [EnterKey] == [EnterKey];
      assert b + s == b;
    } else {
      var rest := TypeKeys(s[1..]) + [EnterKey];
      assert TypeKeys(s) + [EnterKey] == [CharKey(s[0], false)] + rest by {
        AppendAssoc([CharKey(s[0], false)], TypeKeys(s[1..]), [EnterKey]);
      }
      TypeAtEnd(b, s[0]);
      ReadFromStep(EditorState(b, |b|), CharKey(s[0], false), rest);
      TypingAppends(b + [s[0]], s[1..]);
      assert b + [s[0]] + s[1..] == b + s by {
        AppendAssoc(b, [s[0]], s[1..]);
        HeadTail(s);
      }
    }
  }

  /// A key that neither interrupts nor ends the line edits the state and reading goes on.
  lemma ReadFromStep(st: EditorState, k: Key, rest: seq<Key>)
    requires InRange(st) && !IsInterrupt(k) && !k.EnterKey?
    ensures ReadFrom(st, [k] + rest) == ReadFrom(Edit(st, k), rest)
  {
    assert ([k] + rest)[1..] == rest;
  }

  /// A character typed at the end of the line is appended.
  lemma TypeAtEnd(b: seq<char>, c: char)
    ensures Edit(EditorState(b, |b|), CharKey(c, false)) == EditorState(b + [c], |b| + 1)
  {
    var next := Edit(EditorState(b, |b|), CharKey(c, false));
    assert next.buffer == Before(next) + After(next);
  }

  /// `LineEditor`: the buffer, the position in the history (not used by any key yet) and the
  /// cursor.
  class LineEditor {
    var buffer: seq<char>
    var historyIndex: Option<nat>
    var cursorPosition: nat

    constructor()
      ensures buffer == [] && historyIndex == None && cursorPosition == 0
    {
      buffer := [];
      historyIndex := None;
      cursorPosition := 0;
    }

    function State(): EditorState
      reads this
    {
      EditorState(buffer, cursorPosition)
    }

    /// One key of the editing loop.
    method HandleKey(k: Key)
      requires InRange(State())
      modifies this`buffer, this`cursorPosition
      ensures State() == Edit(old(State()), k)
    {
      match k
      case CharKey(c, control) =>
        if !(c == 'c' && control) {
          buffer := buffer[..cursorPosition] + [c] + buffer[cursorPosition..];
          cursorPosition := cursorPosition + 1;
        }
      case BackspaceKey =>
        if cursorPosition > 0 {
          buffer := buffer[..cursorPosition - 1] + buffer[cursorPosition..];
          cursorPosition := cursorPosition - 1;
        }
      case LeftKey =>
        if cursorPosition > 0 {
          cursorPosition := cursorPosition - 1;
        }
      case RightKey =>
        if cursorPosition < |buffer| {
          cursorPosition := cursorPosition + 1;
        }
      case _ =>
    }

    /// `read_line`: the editor starts empty, then takes key events until Enter (the line) or
    /// the interrupt key.
    method ReadLine(keys: seq<Key>) returns (r: LineResult)
      modifies this
      ensures r == ReadFrom(EditorState([], 0), keys)
      ensures historyIndex == None
    {
      buffer := [];
      cursorPosition := 0;
      historyIndex := None;
      var i := 0;
      while i < |keys|
        invariant 0 <= i <= |keys| && InRange(State()) && historyIndex == None
        invariant ReadFrom(State(), keys[i..]) == ReadFrom(EditorState([], 0), keys)
      {
        var k := keys[i];
        assert keys[i..][0] == k && keys[i..][1..] == keys[i + 1..];
        if IsInterrupt(k) {
          return Interrupted;
        }
        if k.EnterKey? {
          return Line(buffer);
        }
        HandleKey(k);
        i := i + 1;
      }
      r := Pending(State());
    }
  }

  // ---------------------------------------------------------------------------
  // History and the main loop

  /// `MAX_HISTORY`.
  const MaxHistory: nat := 50

  /// The last `n` elements of `s` (all of them when there are fewer).
  function Last<T>(n: nat, s: seq<T>): (r: seq<T>)
    ensures |r| <= n && |r| <= |s|
  {
    if |s| <= n then s else s[|s| - n..]
  }

  /// One line of `main_loop` on the history: a blank line is skipped; otherwise the line is
  /// appended and the oldest line dropped once there are more than 50.
  function Recorded(h: seq<string>, line: string): (r: seq<string>)
    ensures Blank(line) ==> r == h
    ensures !Blank(line) ==> |r| > 0 && r[|r| - 1] == line
    ensures |h| <= MaxHistory ==> |r| <= MaxHistory
  {
    if Blank(line) then h
    else
      var pushed := h + [line];
      if |pushed| > MaxHistory then pushed[1..] else pushed
  }

  function RecordAll(h: seq<string>, lines: seq<string>): seq<string>
  {
    if lines == [] then h else Recorded(RecordAll(h, lines[..|lines| - 1]), lines[|lines| - 1])
  }

  function NonBlank(lines: seq<string>): (r: seq<string>)
    ensures |r| <= |lines|
  {
    if lines == [] then []
    else NonBlank(lines[..|lines| - 1]) + (if Blank(lines[|lines| - 1]) then [] else [lines[|lines| - 1]])
  }

  /// Appending to the last `n` elements and dropping the oldest beyond `n` keeps the last `n`.
  lemma LastAppend<T>(n: nat, a: seq<T>, x: T)
    requires n > 0
    ensures var p := Last(n, a) + [x]; (if |p| > n then p[1..] else p) == Last(n, a + [x])
  {
    if |a| >= n {
      assert Last(n, a) + [x] == (a + [x])[|a| - n..];
      assert (Last(n, a) + [x])[1..] == (a + [x])[|a| + 1 - n..];
    }
  }

  /// Starting from a history of at most 50 lines, the history holds the last 50 of the old
  /// history followed by the non-blank lines entered since.
  lemma {:induction false} HistoryIsRecentLines(h: seq<string>, lines: seq<string>)
    requires |h| <= MaxHistory
    ensures RecordAll(h, lines) == Last(MaxHistory, h + NonBlank(lines))
  {
    if lines == [] {
      assert h + NonBlank(lines) == h;
    } else {
      var pre := lines[..|lines| - 1];
      var line := lines[|lines| - 1];
      HistoryIsRecentLines(h, pre);
      var a := h + NonBlank(pre);
      assert RecordAll(h, lines) == Recorded(Last(MaxHistory, a), line);
      if Blank(line) {
        assert NonBlank(lines) == NonBlank(pre) + [];
      } else {
        assert h + NonBlank(lines) == h + (NonBlank(pre) + [line]) == a + [line];
        LastAppend(MaxHistory, a, line);
      }
    }
  }

  /// `COMMAND_HISTORY`.
  class CommandHistory {
    var lines: seq<string>

    constructor()
      ensures lines == []
    {
      lines := [];
    }

    method Record(line: string)
      modifies this
      ensures lines == Recorded(old(lines), line)
    {
      TrimEmpty(line);
      if Trim(line) == [] {
        return;
      }
      lines := lines + [line];
      if |lines| > MaxHistory {
        lines := lines[1..];
      }
    }
  }

  /// What `parse_cmd` does with each line, in order.
  ghost function ParseAll(menu: map<nat, CommandSet>, root: nat, lines: seq<string>): (r: seq<Outcome>)
    requires WellFormed(menu) && root in menu
    ensures |r| == |lines|
  {
    if lines == [] then []
    else ParseAll(menu, root, lines[..|lines| - 1]) + [ParseLine(menu, root, lines[|lines| - 1])]
  }

  /// One more line entered: how the history and the non-blank lines grow.
  lemma PrefixStep(h: seq<string>, lines: seq<string>, i: nat)
    requires i < |lines|
    ensures RecordAll(h, lines[..i + 1]) == Recorded(RecordAll(h, lines[..i]), lines[i])
    ensures Blank(lines[i]) ==> NonBlank(lines[..i + 1]) == NonBlank(lines[..i])
    ensures !Blank(lines[i]) ==> NonBlank(lines[..i + 1]) == NonBlank(lines[..i]) + [lines[i]]
  {
    assert lines[..i + 1][..i] == lines[..i];
    assert NonBlank(lines[..i]) + [] == NonBlank(lines[..i]);
  }

  lemma ParseAllAppend(menu: map<nat, CommandSet>, root: nat, nb: seq<string>, line: string)
    requires WellFormed(menu) && root in menu
    ensures ParseAll(menu, root, nb + [line]) == ParseAll(menu, root, nb) + [ParseLine(menu, root, line)]
  {
    assert (nb + [line])[..|nb|] == nb;
  }

  /// `main_loop` over the lines entered: a blank line is skipped; every other one goes into the
  /// history and is parsed.
  method MainLoop(history: CommandHistory, menu: map<nat, CommandSet>, root: nat, lines: seq<string>)
    returns (outcomes: seq<Outcome>)
    requires WellFormed(menu) && root in menu
    modifies history
    ensures history.lines == RecordAll(old(history.lines), lines)
    ensures outcomes == ParseAll(menu, root, NonBlank(lines))
  {
    outcomes := [];
    var i := 0;
    while i < |lines|
      invariant 0 <= i <= |lines|
      invariant history.lines == RecordAll(old(history.lines), lines[..i])
      invariant outcomes == ParseAll(menu, root, NonBlank(lines[..i]))
    {
      var line := lines[i];
      PrefixStep(old(history.lines), lines, i);
      TrimEmpty(line);
      if Trim(line) == [] {
        i := i + 1;
        continue;
      }
      history.Record(line);
      var o := ParseCmd(menu, root, line);
      ParseAllAppend(menu, root, NonBlank(lines[..i]), line);
      outcomes := outcomes + [o];
      i := i + 1;
    }
    assert lines[..i] == lines;
  }

  // ---------------------------------------------------------------------------
  // Cursor counted in bytes

  /// The length of a character in UTF-8.
  function Utf8Len(c: char): (n: nat)
    ensures 1 <= n <= 4
  {
    if c as int < 0x80 then 1 else if c as int < 0x800 then 2 else if c as int < 0x1_0000 then 3 else 4
  }

  /// The character index at byte offset `idx`, if `idx` is a character boundary.
  function CharIndexAt(buf: seq<char>, idx: nat): (r: Option<nat>)
    ensures r.Some? ==> r.value <= |buf|
  {
    if idx == 0 then Some(0)
    else if buf == [] || idx < Utf8Len(buf[0]) then None
    else match CharIndexAt(buf[1..], idx - Utf8Len(buf[0]))
      case None => None
      case Some(k) => Some(k + 1)
  }

  /// A typed character as written: the buffer is a `String` indexed in bytes and the cursor
  /// advances by one; `String::insert` panics (`None`) when the cursor is not at a character
  /// boundary.
  function InsertAsWritten(st: EditorState, c: char): (r: Option<EditorState>)
    ensures r.Some? ==> r.value.cursor == st.cursor + 1 && |r.value.buffer| == |st.buffer| + 1
  {
    match CharIndexAt(st.buffer, st.cursor)
    case None => None
    case Some(k) => Some(EditorState(st.buffer[..k] + [c] + st.buffer[k..], st.cursor + 1))
  }

  /// Typing `é` (two bytes in UTF-8) and then any character panics: the cursor has advanced by
  /// one byte and sits inside `é`.
  lemma InsertAsWrittenPanicsAfterNonAscii(c: char)
    ensures InsertAsWritten(EditorState([], 0), '\U{00E9}') == Some(EditorState(['\U{00E9}'], 1))
    ensures InsertAsWritten(EditorState(['\U{00E9}'], 1), c).None?
  {
    var empty: seq<char> := [];
    assert empty[..0] + ['\U{00E9}'] + empty[0..] == ['\U{00E9}'];
    assert Utf8Len('\U{00E9}') == 2;
  }

  /// Backspace as written: `String::remove` takes the byte index one before the cursor and
  /// panics (`None`) when that index is not a character boundary or is past the last character.
  function BackspaceAsWritten(st: EditorState): (r: Option<EditorState>)
    ensures st.cursor == 0 ==> r == Some(st)
    ensures r.Some? && st.cursor > 0 ==> r.value.cursor == st.cursor - 1 && |r.value.buffer| + 1 == |st.buffer|
  {
    if st.cursor == 0 then Some(st)
    else match CharIndexAt(st.buffer, st.cursor - 1)
      case None => None
      case Some(k) => if k < |st.buffer| then Some(EditorState(st.buffer[..k] + st.buffer[k + 1..], st.cursor - 1)) else None
  }

  /// With `éa` in the buffer and the cursor moved right past `é` (two byte steps, which the
  /// byte-length bound of Right allows), Backspace removes at byte 1, inside `é`, and panics;
  /// right after typing `é` alone it removes `é` as intended.
  lemma BackspaceAsWrittenPanicsInsideNonAscii()
    ensures BackspaceAsWritten(EditorState(['\U{00E9}'], 1)) == Some(EditorState([], 0))
    ensures BackspaceAsWritten(EditorState(['\U{00E9}', 'a'], 2)).None?
  {
    assert Utf8Len('\U{00E9}') == 2;
    assert CharIndexAt(['\U{00E9}', 'a'], 1).None?;
  }
}
