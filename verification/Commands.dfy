/** Text handling of the command session, on the buffers the code works in: the prompt
    line, the command split of `Parser`, the argument splitter of `Do_usual` and the
    newline cut of the shell session.
 */
module Commands {
  import opened CText

  predicate NoNul(s: string) { '\0' !in s }

  // the fixed parts of the messages
  const EXEC_PREFIX := "@# "
  const COPY_PREFIX := "@Copy_to "
  const GOODBYE := "@Disconnected"
  const SUCCESS := "@Success"

  // ---------------------------------------------------------------- Read_input

  datatype Input = Input(cmd: string, arg: string)

  /** A prompt line without its last character, cut at the first space. */
  function InputOf(text: string): Input {
    var i := IndexOf(text, ' ', 0);
    if i == |text| then Input(text, "") else Input(text[..i], text[i + 1..])
  }

  lemma InputParts(text: string)
    ensures var r := InputOf(text);
            && ' ' !in r.cmd
            && (if ' ' in text then r.cmd + " " + r.arg == text else r == Input(text, ""))
  {
    var i := IndexOf(text, ' ', 0);
    IndexOfFirst(text, ' ', 0, i);
  }

  /** `Read_input`: `line` is what `fgets` delivers, newline included. */
  method ReadInput(line: string, enter: array<char>, cmd: array<char>, arg: array<char>)
    requires enter != cmd && enter != arg && cmd != arg
    requires Zeroed(enter) && Zeroed(cmd) && Zeroed(arg)
    requires 0 < |line| < MAX_COMMAND_LENGTH && NoNul(line)
    modifies enter, cmd, arg
    ensures var r := InputOf(line[..|line| - 1]);
            cmd[..] == Padded(r.cmd, MAX_COMMAND_LENGTH) && arg[..] == Padded(r.arg, MAX_COMMAND_LENGTH)
  {
    hide IndexOf;
    var text := line[..|line| - 1];
    Fill(enter, line);
    StrChrInPadded(line, MAX_COMMAND_LENGTH, 0, ' ');
    var length := IndexOf(enter[..], '\0', 0);
    enter[length - 1] := '\0';
    assert enter[..] == Padded(text, MAX_COMMAND_LENGTH);
    StrChrInPadded(text, MAX_COMMAND_LENGTH, 0, ' ');
    var space := StrChr(enter[..], 0, ' ');
    if space.None? {
      Fill(cmd, CStr(enter[..], 0));
      assert Padded("", MAX_COMMAND_LENGTH) == Zeros(MAX_COMMAND_LENGTH);
    } else {
      StrChrInPadded(text, MAX_COMMAND_LENGTH, space.value + 1, ' ');
      Fill(cmd, enter[..space.value]);
      Fill(arg, CStr(enter[..], space.value + 1));
    }
  }

  // ---------------------------------------------------------------- Parser

  datatype Command = Disconnect | Execute(args: string) | CopyTo(args: string) | CopyFrom(args: string)
                   | Refused      // the caller gets -1
                   | NullCut      // no space to cut at: a write through a null pointer

  /** What `Parser` makes of a message. */
  function Parse(m: string): Command {
    var i := IndexOf(m, ' ', 0);
    if i == |m| then (if m == "@Disconnected" then Disconnect else NullCut)
    else if m[..i] == "@#" then Execute(m[i + 1..])
    else if m[..i] == "@Copy_to" then CopyTo(m[i + 1..])
    else if m[..i] == "@Copy_from" then CopyFrom(m[i + 1..])
    else Refused   // @Login and @Have_previos_session included: their handlers are disabled
  }

  /** Which message is which, by the word before its first space: an unknown word, the two
      with disabled handlers included, is refused. Without a space only the goodbye is
      understood. */
  lemma ParseByWord(word: string, rest: string)
    requires ' ' !in word
    ensures var c := Parse(word + " " + rest);
            && (c == Execute(rest) <==> word == "@#")
            && (c == CopyTo(rest) <==> word == "@Copy_to")
            && (c == CopyFrom(rest) <==> word == "@Copy_from")
            && (c == Refused <==> word != "@#" && word != "@Copy_to" && word != "@Copy_from")
    ensures Parse(word) == if word == "@Disconnected" then Disconnect else NullCut
  {
    hide IndexOf;
    var m := word + " " + rest;
    assert forall j :: 0 <= j < |word| ==> m[j] == word[j];
    IndexOfFirst(m, ' ', 0, |word|);
    IndexOfFirst(word, ' ', 0, |word|);
    assert m[..|word|] == word && m[|word| + 1..] == rest;
  }

  /** `Parser` up to its dispatch: the message is cut in place at the first space, and the
      two parts are copied out. */
  method Parser(message: array<char>, cmd: array<char>, args: array<char>, ghost text: string)
    returns (r: Command)
    requires message != cmd && message != args && cmd != args
    requires message.Length == MAX_COMMAND_LENGTH && |text| < MAX_COMMAND_LENGTH && NoNul(text)
    requires message[..] == Padded(text, MAX_COMMAND_LENGTH) && Zeroed(cmd) && Zeroed(args)
    modifies message, cmd, args
    ensures r == Parse(text)
    ensures var i := IndexOf(text, ' ', 0);
            message[..] == if i < |text| then old(message[..])[i := '\0'] else old(message[..])
    ensures ' ' in text ==> CStr(message[..], 0) + " " + CStr(args[..], 0) == text
    ensures var i := IndexOf(text, ' ', 0);
            i < |text| ==> args[..] == Padded(text[i + 1..], MAX_COMMAND_LENGTH)
  {
    hide IndexOf, CStr, StrChr, Padded;
    WholeText(text);
    SpaceSplits(text);
    var space := StrChr(message[..], 0, ' ');
    if space.None? {
      return if CStr(message[..], 0) == "@Disconnected" then Disconnect else NullCut;
    }
    var i := space.value;
    message[i] := '\0';
    CutText(text, i);
    Fill(cmd, CStr(message[..], 0));
    Fill(args, CStr(message[..], i + 1));
    WholeText(text[..i]);
    WholeText(text[i + 1..]);
    var name, rest := CStr(cmd[..], 0), CStr(args[..], 0);
    r := if name == "@#" then Execute(rest)
         else if name == "@Copy_to" then CopyTo(rest)
         else if name == "@Copy_from" then CopyFrom(rest)
         else Refused;
  }

  /** A text in its buffer, read whole and searched for a space. */
  lemma WholeText(text: string)
    requires |text| < MAX_COMMAND_LENGTH && NoNul(text)
    ensures CStr(Padded(text, MAX_COMMAND_LENGTH), 0) == text
    ensures StrChr(Padded(text, MAX_COMMAND_LENGTH), 0, ' ')
         == (var i := IndexOf(text, ' ', 0); if i < |text| then Some(i) else None)
  {
    hide IndexOf, StrChr;
    StrChrInPadded(text, MAX_COMMAND_LENGTH, 0, ' ');
    assert Padded(text, MAX_COMMAND_LENGTH)[0..|text|] == text;
  }

  lemma SpaceSplits(text: string)
    ensures ' ' in text <==> IndexOf(text, ' ', 0) < |text|
    ensures var i := IndexOf(text, ' ', 0); i < |text| ==> text == text[..i] + " " + text[i + 1..]
  {
    hide IndexOf;
    var i := IndexOf(text, ' ', 0);
    IndexOfFirst(text, ' ', 0, i);
    if i < |text| {
      AroundSpace(text, i);
    }
  }

  lemma AroundSpace(text: string, i: nat)
    requires i < |text| && text[i] == ' '
    ensures text == text[..i] + " " + text[i + 1..]
  {
    assert text == text[..i] + text[i..];
  }

  /** The same buffer after a NUL is written at `i`: two texts where there was one. */
  lemma CutText(text: string, i: nat)
    requires i < |text| < MAX_COMMAND_LENGTH && NoNul(text)
    ensures var buf := Padded(text, MAX_COMMAND_LENGTH)[i := '\0'];
            CStr(buf, 0) == text[..i] && CStr(buf, i + 1) == text[i + 1..]
  {
    hide IndexOf;
    var buf := Padded(text, MAX_COMMAND_LENGTH)[i := '\0'];
    assert forall j :: 0 <= j < i ==> buf[j] == text[j] && text[j] in text;
    Terminated(buf, 0, i);
    assert buf[0..i] == text[..i];
    TailOfPadded(text, MAX_COMMAND_LENGTH, buf, i + 1);
  }

  /** The text at `from` ends at `e` when that is the first NUL. */
  lemma Terminated(buf: string, from: nat, e: nat)
    requires from <= e < |buf| && buf[e] == '\0'
    requires forall j :: from <= j < e ==> buf[j] != '\0'
    ensures CStr(buf, from) == buf[from..e]
  {
    IndexOfFirst(buf, '\0', from, e);
  }

  lemma TailOfPadded(text: string, size: nat, buf: string, from: nat)
    requires |text| < size == |buf| && NoNul(text) && from <= |text|
    requires buf[from..] == Padded(text, size)[from..]
    ensures CStr(buf, from) == text[from..]
  {
    var t := Padded(text, size)[from..];
    assert forall j :: from <= j < size ==> buf[j] == buf[from..][j - from] == t[j - from] == Padded(text, size)[j];
    assert forall j :: from <= j < |text| ==> buf[j] == text[j] && text[j] in text;
    Terminated(buf, from, |text|);
    assert buf[from..|text|] == text[from..];
  }

  // ---------------------------------------------------------------- Do_usual

  const ARGV_SLOTS := 100

  /** Pieces between spaces; the first search starts at `from`. */
  function FieldsFrom(s: string, from: nat): (r: seq<string>)
    requires from <= |s|
    ensures |r| > 0
    decreases |s|
  {
    var i := IndexOf(s, ' ', from);
    if i == |s| then [s] else [s[..i]] + FieldsFrom(s[i + 1..], 0)
  }

  /** The argument vector made of a command: the search for spaces starts behind its first character. */
  function Words(text: string): seq<string> {
    if text == "" then [""] else FieldsFrom(text, 1)
  }

  function Join(words: seq<string>): string
    requires |words| > 0
  {
    if |words| == 1 then words[0] else words[0] + " " + Join(words[1..])
  }

  function Spaces(s: string): nat {
    if s == "" then 0 else Spaces(s[..|s| - 1]) + if s[|s| - 1] == ' ' then 1 else 0
  }

  lemma {:induction false} SpacesAdd(s: string, t: string)
    ensures Spaces(s + t) == Spaces(s) + Spaces(t)
  {
    if t == "" {
      assert s + t == s;
    } else {
      assert (s + t)[..|s + t| - 1] == s + t[..|t| - 1];
      SpacesAdd(s, t[..|t| - 1]);
    }
  }

  lemma OneSpace()
    ensures Spaces(" ") == 1
  {
    assert Spaces("") == 0;
  }

  lemma {:induction false} NoSpaces(s: string)
    ensures Spaces(s) == 0 <==> ' ' !in s
  {
    if s != "" {
      NoSpaces(s[..|s| - 1]);
      assert s == s[..|s| - 1] + [s[|s| - 1]];
    }
  }

  /** Splitting loses nothing and splits everywhere: the pieces joined by spaces are the
      text, none but possibly the first contains a space, and there is one more piece than
      there are spaces from `from` on. */
  lemma {:induction false} FieldsOf(s: string, from: nat)
    requires from <= |s|
    ensures var f := FieldsFrom(s, from);
            && Join(f) == s
            && |f| == Spaces(s[from..]) + 1
            && (' ' !in s[..from] ==> ' ' !in f[0])
            && forall k :: 1 <= k < |f| ==> ' ' !in f[k]
    decreases |s|
  {
    hide Spaces, IndexOf;
    var f := FieldsFrom(s, from);
    var i := IndexOf(s, ' ', from);
    IndexOfFirst(s, ' ', from, i);
    NoSpaces(s[from..i]);
    if i == |s| {
      assert s[from..i] == s[from..];
      assert s == s[..from] + s[from..];
    } else {
      var rest := s[i + 1..];
      FieldsOf(rest, 0);
      assert rest[0..] == rest;
      assert f[1..] == FieldsFrom(rest, 0);
      assert s == s[..i] + " " + rest;
      assert s[from..] == s[from..i] + (" " + rest);
      SpacesAdd(s[from..i], " " + rest);
      SpacesAdd(" ", rest);
      OneSpace();
      assert s[..i] == s[..from] + s[from..i];
    }
  }

  /** For a command that starts with a non-space, the argument vector has no space in it
      and says the command again when joined. */
  lemma WordsOf(text: string)
    ensures Join(Words(text)) == text
    ensures text != "" ==> |Words(text)| == Spaces(text[1..]) + 1
    ensures (text == "" || text[0] != ' ') ==>
              |Words(text)| == Spaces(text) + 1 && forall k :: 0 <= k < |Words(text)| ==> ' ' !in Words(text)[k]
  {
    if text != "" {
      FieldsOf(text, 1);
      assert text == text[..1] + text[1..];
      SpacesAdd(text[..1], text[1..]);
      NoSpaces(text[..1]);
    }
  }

  /** The splitter writes past its table of 100 pointers: the last one is for the NULL. */
  predicate Overruns(text: string) { |Words(text)| >= ARGV_SLOTS }

  /** The most spaces behind the first character that the table has room for. */
  const MOST_SPACES := 98

  lemma OverrunsIff(text: string)
    ensures Overruns(text) <==> text != "" && Spaces(text[1..]) > MOST_SPACES
  {
    hide FieldsFrom;
    WordsOf(text);
  }

  /** A command typed without arguments: `Command_exec` sends it with a trailing space, so
      the program is started with one extra, empty argument. */
  lemma BareCommand(cmd: string)
    requires cmd != "" && ' ' !in cmd
    ensures Words(cmd + " ") == [cmd, ""]
  {
    var t := cmd + " ";
    IndexOfFirst(t, ' ', 1, |cmd|);
    assert t[..|cmd|] == cmd && t[|cmd| + 1..] == "";
    assert FieldsFrom("", 0) == [""];
  }

  /** Word `k` of the vector lies NUL-terminated at its slot's offset. */
  predicate Placed(buf: string, slot: Option<nat>, word: string) {
    && slot.Some? && slot.value + |word| < |buf|
    && buf[slot.value..slot.value + |word|] == word
    && buf[slot.value + |word|] == '\0'
  }

  lemma PlacedReads(buf: string, slot: Option<nat>, word: string)
    requires Placed(buf, slot, word) && NoNul(word)
    ensures CStr(buf, slot.value) == word
  {
    var p := slot.value;
    assert forall j :: p <= j < p + |word| ==> buf[j] == word[j - p] && word[j - p] in word;
    Terminated(buf, p, p + |word|);
  }

  lemma {:induction false} FieldsNoNul(s: string, from: nat)
    requires from <= |s| && NoNul(s)
    ensures forall k :: 0 <= k < |FieldsFrom(s, from)| ==> NoNul(FieldsFrom(s, from)[k])
    decreases |s|
  {
    var i := IndexOf(s, ' ', from);
    if i < |s| {
      FieldsNoNul(s[i + 1..], 0);
    }
  }

  /** The arguments that a pointer table hands over, up to its NULL. */
  function Vector(buf: string, slots: seq<Option<nat>>, k: nat): seq<string>
    decreases |slots| - k
  {
    if k >= |slots| || slots[k].None? || slots[k].value > |buf| then []
    else [CStr(buf, slots[k].value)] + Vector(buf, slots, k + 1)
  }

  lemma {:induction false} VectorIsWords(buf: string, slots: seq<Option<nat>>, words: seq<string>, k: nat)
    requires k <= |words| < |slots| && slots[|words|] == None
    requires forall j :: 0 <= j < |words| ==>
               slots[j].Some? && slots[j].value < |buf| && CStr(buf, slots[j].value) == words[j]
    ensures Vector(buf, slots, k) == words[k..]
    decreases |words| - k
  {
    hide CStr;
    if k < |words| {
      VectorIsWords(buf, slots, words, k + 1);
    }
  }

  /** The splitter of `Do_usual`: cuts the command in place and fills the pointer table.
      `inBounds` is false when it would write past the table; `OverrunsIff` says when. */
  method SplitArguments(command: array<char>, argv: array<Option<nat>>, ghost text: string)
    returns (count: nat, inBounds: bool)
    requires command.Length == MAX_COMMAND_LENGTH && |text| < MAX_COMMAND_LENGTH && NoNul(text)
    requires command[..] == Padded(text, MAX_COMMAND_LENGTH)
    requires argv.Length == ARGV_SLOTS
    modifies command, argv
    ensures inBounds <==> !Overruns(text)
    ensures inBounds ==> count == |Words(text)| && argv[count] == None
    ensures inBounds ==> forall k :: 0 <= k < count ==>
              argv[k].Some? && argv[k].value < command.Length && CStr(command[..], argv[k].value) == Words(text)[k]
  {
    hide CStr, StrChr, Padded, Words, Splitting;
    var from := 1;
    ghost var start := 0;                  // where the word being delimited begins
    argv[0] := Some(0);
    argv[1] := None;
    count := 1;
    SplitStart(text, command[..], argv[..]);
    while true
      invariant 1 <= count < ARGV_SLOTS && argv[count] == None && start <= from <= |text| + 1
      invariant Splitting(text, command[..], argv[..], count, start, from)
      decreases MAX_COMMAND_LENGTH - from
    {
      var space := StrChr(command[..], from, ' ');
      if space.None? {
        break;
      }
      SplitFound(text, command[..], argv[..], count, start, from);
      if count + 1 == ARGV_SLOTS {
        return count, false;
      }
      var i := space.value;
      ghost var whole, slots := command[..], argv[..];
      command[i] := '\0';
      argv[count] := Some(i + 1);
      count := count + 1;
      argv[count] := None;
      assert argv[..][..count - 1] == slots[..count - 1];
      SplitStep(text, whole, slots, argv[..], count - 1, start, from, i);
      start := i + 1;
      from := i + 1;
    }
    SplitEnd(text, command[..], argv[..], count, start, from);
    inBounds := true;
  }

  /** The splitter has delimited all words but the last of `count`, which begins at `start`;
      it goes on searching at `from`. */
  ghost predicate Splitting(text: string, buf: string, slots: seq<Option<nat>>, count: nat, start: nat, from: nat) {
    && |text| < MAX_COMMAND_LENGTH == |buf| && NoNul(text)
    && 1 <= count <= |slots| && start <= |text| && slots[count - 1] == Some(start)
    && from == (if count == 1 then 1 else start) && (count == 1 ==> start == 0)
    && buf[start..] == Padded(text, MAX_COMMAND_LENGTH)[start..]
    && count <= |Words(text)| && Words(text)[count - 1..] == Remaining(text, start, from)
    && Done(buf, slots, Words(text), count - 1, start)
  }

  lemma SplitStart(text: string, buf: string, slots: seq<Option<nat>>)
    requires |text| < MAX_COMMAND_LENGTH && NoNul(text) && buf == Padded(text, MAX_COMMAND_LENGTH)
    requires |slots| > 0 && slots[0] == Some(0)
    ensures Splitting(text, buf, slots, 1, 0, 1)
  {
    hide Padded, Words, Remaining;
    WordsStart(text);
    assert Words(text)[0..] == Words(text);
  }

  /** A space found is inside the text, and there is one more word. */
  lemma SplitFound(text: string, buf: string, slots: seq<Option<nat>>, count: nat, start: nat, from: nat)
    requires Splitting(text, buf, slots, count, start, from) && from <= |buf| && StrChr(buf, from, ' ').Some?
    ensures from <= StrChr(buf, from, ' ').value < |text| && count < |Words(text)|
  {
    hide StrChr, Padded, Words, Remaining, Done;
    SearchStep(text, start, from, buf);
    TailOfWords(Words(text), count - 1);
  }

  lemma SplitStep(text: string, whole: string, slots: seq<Option<nat>>, slots': seq<Option<nat>>,
                  count: nat, start: nat, from: nat, i: nat)
    requires Splitting(text, whole, slots, count, start, from)
    requires from <= |whole| && StrChr(whole, from, ' ') == Some(i)
    requires count < |slots'| && slots'[..count] == slots[..count] && slots'[count] == Some(i + 1)
    ensures i < |whole| && Splitting(text, whole[i := '\0'], slots', count + 1, i + 1, i + 1)
  {
    hide StrChr, Padded, Words, Remaining, Done;
    SearchStep(text, start, from, whole);
    TailOfWords(Words(text), count - 1);
    DoneStep(whole, slots, slots', Words(text), count - 1, start, i);
    SuffixKept(whole, Padded(text, MAX_COMMAND_LENGTH), start, i);
  }

  lemma SplitEnd(text: string, buf: string, slots: seq<Option<nat>>, count: nat, start: nat, from: nat)
    requires Splitting(text, buf, slots, count, start, from) && count < |slots|
    requires from <= |buf| && StrChr(buf, from, ' ').None?
    ensures |Words(text)| == count
    ensures forall k :: 0 <= k < count ==>
              slots[k].Some? && slots[k].value < |buf| && CStr(buf, slots[k].value) == Words(text)[k]
  {
    hide StrChr, CStr, Padded, Words, Remaining, Done;
    SearchStep(text, start, from, buf);
    AllReads(text, buf, slots, Words(text), count - 1, start);
  }

  /** The first `n` words are delimited and pointed at, all before `start`. */
  ghost predicate Done(buf: string, slots: seq<Option<nat>>, words: seq<string>, n: nat, start: nat) {
    && n <= |slots| && n <= |words|
    && (forall k :: 0 <= k < |words| ==> NoNul(words[k]))
    && forall k :: 0 <= k < n ==> Placed(buf, slots[k], words[k]) && slots[k].value + |words[k]| < start
  }

  lemma DoneStep(whole: string, slots: seq<Option<nat>>, slots': seq<Option<nat>>, words: seq<string>,
                 n: nat, start: nat, i: nat)
    requires Done(whole, slots, words, n, start)
    requires n < |slots| && n < |slots'| && slots'[..n + 1] == slots[..n + 1] && slots[n] == Some(start)
    requires n < |words| && start <= i < |whole| && words[n] == whole[start..i]
    ensures Done(whole[i := '\0'], slots', words, n + 1, i + 1)
  {
    assert forall k :: 0 <= k <= n ==> slots'[k] == slots'[..n + 1][k] == slots[..n + 1][k] == slots[k];
    forall k | 0 <= k < n
      ensures Placed(whole[i := '\0'], slots'[k], words[k])
    {
      PlacedKept(whole, i, slots[k], words[k]);
    }
    PlacedNow(whole, start, i, words[n]);
  }

  lemma DoneReads(buf: string, slots: seq<Option<nat>>, words: seq<string>, n: nat, start: nat)
    requires Done(buf, slots, words, n, start)
    ensures forall k :: 0 <= k < n ==>
              slots[k].Some? && slots[k].value < |buf| && CStr(buf, slots[k].value) == words[k]
  {
    forall k | 0 <= k < n
      ensures slots[k].Some? && slots[k].value < |buf| && CStr(buf, slots[k].value) == words[k]
    {
      PlacedReads(buf, slots[k], words[k]);
    }
  }

  /** The last word ends with the text. */
  lemma AllReads(text: string, buf: string, slots: seq<Option<nat>>, words: seq<string>, n: nat, start: nat)
    requires |text| < MAX_COMMAND_LENGTH == |buf| && NoNul(text) && start <= |text|
    requires Done(buf, slots, words, n, start) && n < |slots| && slots[n] == Some(start)
    requires n < |words| && words[n..] == [text[start..]]
    requires buf[start..] == Padded(text, MAX_COMMAND_LENGTH)[start..]
    ensures |words| == n + 1
    ensures forall k :: 0 <= k < |words| ==>
              slots[k].Some? && slots[k].value < |buf| && CStr(buf, slots[k].value) == words[k]
  {
    hide CStr, Padded;
    TailOfWords(words, n);
    TailOfPadded(text, MAX_COMMAND_LENGTH, buf, start);
    DoneReads(buf, slots, words, n, start);
  }

  lemma TailOfWords(words: seq<string>, n: nat)
    requires n < |words|
    ensures words[n..][0] == words[n] && words[n..][1..] == words[n + 1..] && |words[n..]| == |words| - n
  {
  }

  /** The words still to come when the one at `start` is searched from `from`. */
  ghost function Remaining(text: string, start: nat, from: nat): (r: seq<string>)
    requires start <= |text| && (from == start || from == start + 1)
    ensures |r| > 0
  {
    if from > |text| then [text[start..]] else FieldsFrom(text[start..], from - start)
  }

  lemma WordsStart(text: string)
    requires NoNul(text)
    ensures Words(text) == Remaining(text, 0, 1) && |Words(text)| > 0
    ensures forall k :: 0 <= k < |Words(text)| ==> NoNul(Words(text)[k])
  {
    assert text[0..] == text;
    if text != "" { FieldsNoNul(text, 1); }
  }

  lemma PlacedNow(whole: string, start: nat, i: nat, word: string)
    requires start <= i < |whole| && word == whole[start..i]
    ensures Placed(whole[i := '\0'], Some(start), word)
  {
    assert whole[i := '\0'][start..i] == word;
  }

  lemma PlacedKept(whole: string, i: nat, slot: Option<nat>, word: string)
    requires Placed(whole, slot, word) && slot.value + |word| < i < |whole|
    ensures Placed(whole[i := '\0'], slot, word)
  {
    var p := slot.value;
    assert whole[i := '\0'][p..p + |word|] == whole[p..p + |word|];
  }

  lemma SuffixKept(whole: string, p: string, start: nat, i: nat)
    requires |whole| == |p| && start <= i < |whole| && whole[start..] == p[start..]
    ensures whole[i := '\0'][i + 1..] == p[i + 1..]
  {
    assert whole[start..][i + 1 - start..] == whole[i + 1..];
    assert p[start..][i + 1 - start..] == p[i + 1..];
  }

  /** One search of the splitter on the part of the buffer that is still whole. */
  lemma SearchStep(text: string, start: nat, from: nat, buf: string)
    requires |text| < MAX_COMMAND_LENGTH == |buf| && NoNul(text)
    requires start <= |text| && (from == start || (from == start + 1 && start == 0))
    requires buf[start..] == Padded(text, MAX_COMMAND_LENGTH)[start..]
    ensures var r := Remaining(text, start, from); var i := StrChr(buf, from, ' ');
            && (i.None? ==> r == [text[start..]])
            && (i.Some? ==> (from <= i.value < |text| && r[0] == text[start..i.value] == buf[start..i.value]
                              && r[1..] == Remaining(text, i.value + 1, i.value + 1) && |r| >= 2))
  {
    hide IndexOf, StrChr, Padded;
    SearchInBuffer(text, start, from, buf);
    if from <= |text| {
      NextWord(text, start, from);
      var i := IndexOf(text, ' ', from);
      assert i < |text| ==> text[start..i] == buf[start..][..i - start] == buf[start..i] by {
        PaddedSlice(text, start, i);
      }
    }
  }

  lemma PaddedSlice(text: string, a: nat, b: nat)
    requires a <= b <= |text| < MAX_COMMAND_LENGTH
    ensures Padded(text, MAX_COMMAND_LENGTH)[a..][..b - a] == text[a..b]
  {
  }

  lemma SearchInBuffer(text: string, start: nat, from: nat, buf: string)
    requires |text| < MAX_COMMAND_LENGTH == |buf| && NoNul(text)
    requires start <= |text| && start <= from <= |text| + 1
    requires buf[start..] == Padded(text, MAX_COMMAND_LENGTH)[start..]
    requires from <= |buf|
    ensures StrChr(buf, from, ' ')
         == (if from > |text| then None
             else var i := IndexOf(text, ' ', from); if i < |text| then Some(i) else None)
  {
    hide IndexOf;
    var p := Padded(text, MAX_COMMAND_LENGTH);
    assert forall j :: start <= j < |buf| ==> buf[j] == buf[start..][j - start] == p[start..][j - start] == p[j];
    if from <= |text| {
      assert forall j :: start <= j < |text| ==> buf[j] == text[j] && text[j] in text;
      IndexOfFirst(buf, '\0', from, |text|);
      var i := IndexOf(text, ' ', from);
      IndexOfFirst(text, ' ', from, i);
      if i < |text| {
        IndexOfFirst(buf, ' ', from, i);
      } else {
        IndexOfFirst(buf, ' ', from, IndexOf(buf, ' ', from));
      }
    } else if from < |buf| {
      assert buf[from] == '\0';
      IndexOfFirst(buf, '\0', from, from);
    }
  }

  lemma NextWord(text: string, start: nat, from: nat)
    requires start <= from <= |text| && (from == start || from == start + 1)
    ensures var i := IndexOf(text, ' ', from); var r := Remaining(text, start, from);
            && (i == |text| ==> r == [text[start..]])
            && (i < |text| ==> (r[0] == text[start..i] && r[1..] == Remaining(text, i + 1, i + 1) && |r| >= 2))
  {
    hide IndexOf;
    var s := text[start..];
    var i := IndexOf(text, ' ', from);
    IndexOfFirst(text, ' ', from, i);
    IndexOfFirst(s, ' ', from - start, i - start);
    if i < |text| {
      assert s[..i - start] == text[start..i];
      assert s[i - start + 1..] == text[i + 1..];
    }
  }

  // ---------------------------------------------------------------- the newline cut

  /** The trimming loop of the shell session; its bound `strlen(message)` is evaluated
      again before every turn. It leaves the text through the first newline, and since the
      first NUL it writes already ends the text, it turns at most once. */
  method TrimAfterNewline(message: array<char>) returns (turns: nat)
    requires StrChr(message[..], 0, '\n').Some?
    modifies message
    ensures var old' := old(message[..]); var n := StrChr(old', 0, '\n').value;
            && CStr(message[..], 0) == old'[..n + 1]
            && turns == (if n + 1 < IndexOf(old', '\0', 0) then 1 else 0)
            && message[..] == (if turns == 1 then old'[n + 1 := '\0'] else old')
  {
    hide IndexOf;
    ghost var was := message[..];
    var trueLength := StrChr(message[..], 0, '\n').value + 1;
    IndexOfFirst(was, '\0', 0, IndexOf(was, '\0', 0));
    turns := 0;
    var i := trueLength;
    while i < IndexOf(message[..], '\0', 0)
      invariant turns <= 1 && i == trueLength + turns
      invariant turns == 0 ==> message[..] == was
      invariant turns == 1 ==> trueLength < IndexOf(was, '\0', 0) && message[..] == was[trueLength := '\0']
      invariant turns == 1 ==> IndexOf(message[..], '\0', 0) == trueLength
      decreases 1 - turns
    {
      message[i] := '\0';
      assert forall j :: 0 <= j < trueLength ==> message[j] == was[j];
      IndexOfFirst(message[..], '\0', 0, trueLength);
      i := i + 1;
      turns := turns + 1;
    }
  }
}
