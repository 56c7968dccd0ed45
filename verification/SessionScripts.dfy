/** What actually happens at the prompt: from every state in which the client has its prompt,
    a typed line leads through events that are all possible, and this is where it ends. */
module SessionScripts {
  import opened CText
  import opened Commands
  import opened Session

  predicate CanBeTyped(line: string) { 0 < |line| < 65536 && '\0' !in line }

  /** The client has its prompt after these events. */
  predicate AtPromptAfter(w: World, files: map<string, string>, events: seq<Event>) {
    var r := Run(w, files, events); r.Some? && r.value.client.AtPrompt?
  }

  lemma OneMore(w: World, files: map<string, string>, events: seq<Event>, s: Sys, e: Event)
    requires Run(w, files, events) == Some(s) && Enabled(w, s, e)
    ensures Run(w, files, events + [e]) == Some(After(w, s, e))
  {
    hide Enabled, After;
    assert (events + [e])[..|events + [e]| - 1] == events;
  }

  lemma PromptState(w: World, files: map<string, string>, events: seq<Event>)
    requires AtPromptAfter(w, files, events)
    ensures var s := Run(w, files, events).value;
            s.up == [] && s.down == [] && s.server == Idle
  {
    PromptMeansDone(w, files, events);
  }

  /** A line whose first word is "@exit" makes the client send "@Disconnected" and leave,
      and the server stops on taking it. */
  lemma ExitLeaves(w: World, files: map<string, string>, before: seq<Event>, line: string, outcome: Outcome)
    requires AtPromptAfter(w, files, before) && CanBeTyped(line) && FirstWord(line) == "@exit"
    ensures var s := Run(w, files, before).value;
            && Run(w, files, before + [Ask(line)])
               == Some(s.(client := Left, up := [Packet(IsCommand, "@Disconnected")]))
            && Run(w, files, before + [Ask(line)] + [Take(outcome)])
               == Some(s.(client := Left, server := Stopped))
  {
    hide Parse, TextOf, Typed, Run;
    PromptState(w, files, before);
    LineSplit(line);
    var s := Run(w, files, before).value;
    assert s.up + [Packet(IsCommand, GOODBYE)] == [Packet(IsCommand, GOODBYE)];
    OneMore(w, files, before, s, Ask(line));
    ParseSent("");
    OneMore(w, files, before + [Ask(line)], After(w, s, Ask(line)), Take(outcome));
  }

  /** The line taken apart, with the request it makes. */
  lemma LineSplit(line: string)
    requires line != ""
    ensures var word := FirstWord(line);
            && ' ' !in word
            && (Typed(line).Exit? <==> word == "@exit")
            && (Typed(line).CopyBack? <==> word == "@copy_from")
            && (Typed(line).CopyNoSpace? ==> word == "@copy_to")
            && (Typed(line).Copy? ==> word == "@copy_to")
            && (word == "@copy_to" ==> Typed(line).CopyNoSpace? || Typed(line).Copy?)
            && (Typed(line).Unknown? <==> word != "" && word[0] == '@' && word != "@exit" && word != "@copy_to"
                                          && word != "@copy_from")
            && (Typed(line).Exec? <==> word == "" || word[0] != '@')
  {
    hide Typed, InputOf, IndexOf;
    var text := line[..|line| - 1];
    var word := FirstWord(line);
    SpaceSplits(text);
    IndexOfFirst(text, ' ', 0, IndexOf(text, ' ', 0));
    RequestsAsTyped(line, word, if ' ' in text then text[IndexOf(text, ' ', 0) + 1..] else "");
  }

  /** Over whole runs: the client has left if and only if such a line was typed. */
  lemma {:induction false} LeftIffExitTyped(w: World, files: map<string, string>, events: seq<Event>)
    ensures var r := Run(w, files, events); r.Some? ==>
              (r.value.client.Left? <==> exists i :: 0 <= i < |events| && ExitTyped(events[i]))
  {
    hide Typed, AfterTake, Decimal;
    if events != [] {
      var n := |events| - 1;
      var before, e := events[..n], events[n];
      LeftIffExitTyped(w, files, before);
      assert events == before + [e];
      var r := Run(w, files, before);
      if r.Some? && Enabled(w, r.value, e) {
        LeavingStep(w, r.value, e);
      }
    }
  }

  predicate ExitTyped(e: Event) {
    e.Ask? && e.line != "" && FirstWord(e.line) == "@exit"
  }

  lemma LeavingStep(w: World, s: Sys, e: Event)
    requires Enabled(w, s, e)
    ensures After(w, s, e).client.Left? <==> s.client.Left? || ExitTyped(e)
  {
    hide Typed, AfterTake, Decimal, FirstWord;
    if e.Ask? {
      LineSplit(e.line);
    }
  }

  /** An unknown word behind an '@' changes nothing at all; a copy without its second path
      and a copy back end the client, which has sent nothing. */
  lemma NothingSent(w: World, files: map<string, string>, before: seq<Event>, line: string)
    requires AtPromptAfter(w, files, before) && CanBeTyped(line)
    requires FirstWord(line) != "" && FirstWord(line)[0] == '@' && FirstWord(line) != "@exit"
    requires !Typed(line).Copy?
    ensures var s := Run(w, files, before).value; var word := FirstWord(line);
            Run(w, files, before + [Ask(line)])
            == Some(if word == "@copy_to" || word == "@copy_from" then s.(client := ClientCrashed) else s)
  {
    hide Typed, FirstWord, Run;
    LineSplit(line);
    OneMore(w, files, before, Run(w, files, before).value, Ask(line));
  }

  /** What a program has done to the files. */
  ghost predicate Effect(old': map<string, string>, new': map<string, string>, outcome: Outcome)
    requires outcome.Ends?
  {
    forall p ::
      && (p in outcome.written ==> p in new' && new'[p] == outcome.written[p])
      && (p !in outcome.written && p in outcome.removed ==> p !in new')
      && (p !in outcome.written && p !in outcome.removed ==> SameAt(new', old', p))
  }

  /** A line typed as a command, short enough to be sent, is taken by the server, and then:
      more than 98 spaces behind the first character crash it; a program that cannot be
      started leaves no answer; one that never ends, or prints more than 65536 characters,
      blocks the server; otherwise the program's changes to the files are there, and its
      output, if not longer than 65507, is the answer. */
  lemma CommandRuns(w: World, files: map<string, string>, before: seq<Event>, line: string, outcome: Outcome)
    requires AtPromptAfter(w, files, before) && CanBeTyped(line)
    requires line[..|line| - 1] == "" || line[0] != '@'
    requires |Sent(line)| <= 65504
    ensures Run(w, files, before + [Ask(line)] + [Take(outcome)]).Some?
    ensures var s := Run(w, files, before).value;
            var t := Run(w, files, before + [Ask(line)] + [Take(outcome)]).value;
            && t.client == Waiting(Ran(Sent(line))) && t.up == []
            && if Spaces(Sent(line)[1..]) > 98 then t.server == ServerCrashed && t.down == [] && t.files == s.files
               else if outcome.NotStarted? then t.server == Idle && t.down == [] && t.files == s.files
               else if outcome.NeverEnds? || |outcome.output| > 65536 then t.server == Blocked && t.down == []
               else
                 && t.server == Idle && Effect(s.files, t.files, outcome)
                 && t.down == if |outcome.output| <= 65507 then [outcome.output] else []
  {
    hide Parse, TextOf, Typed, Run, Effect, AfterCommand, Sent, Spaces;
    PromptState(w, files, before);
    SentIsTyped(line);
    TypedIsClean(line);
    var s := Run(w, files, before).value;
    var text := Sent(line);
    OneMore(w, files, before, s, Ask(line));
    var s1 := After(w, s, Ask(line));
    assert s1.up == [Packet(IsCommand, EXEC_PREFIX + text)];
    ParseSent(text);
    OneMore(w, files, before + [Ask(line)], s1, Take(outcome));
    CommandTable(s1.(up := []), text, outcome);
  }

  lemma SentIsTyped(line: string)
    requires line != "" && (line[..|line| - 1] == "" || line[0] != '@')
    ensures Typed(line) == Exec(Sent(line))
  {
    ExecParts(line[..|line| - 1]);
    hide RequestOf, InputOf;
  }

  /** What `Do_usual` makes of a command that has been taken. */
  lemma CommandTable(s: Sys, text: string, outcome: Outcome)
    requires s.down == [] && s.server == Idle && text != ""
    ensures var t := AfterCommand(s, text, outcome);
            && t.client == s.client && t.up == s.up
            && if Spaces(text[1..]) > 98 then t.server == ServerCrashed && t.down == [] && t.files == s.files
               else if outcome.NotStarted? then t.server == Idle && t.down == [] && t.files == s.files
               else if outcome.NeverEnds? || |outcome.output| > 65536 then t.server == Blocked && t.down == []
               else
                 && t.server == Idle && Effect(s.files, t.files, outcome)
                 && t.down == if |outcome.output| <= 65507 then [outcome.output] else []
  {
    hide Overruns, Spaces, Effect, Changed;
    OverrunsIff(text);
    if outcome.Ends? {
      EffectOfProgram(s.files, outcome);
    }
  }

  /** What is sent for a typed command: itself, with a space if it has none. */
  function Sent(line: string): (r: string)
    requires line != ""
    ensures r != ""
  {
    var text := line[..|line| - 1];
    if ' ' in text then text else text + " "
  }

  lemma EffectOfProgram(files: map<string, string>, outcome: Outcome)
    requires outcome.Ends?
    ensures Effect(files, Changed(files, outcome.removed, outcome.written), outcome)
  {
    forall p
      ensures (p in outcome.written ==>
                 var t := Changed(files, outcome.removed, outcome.written); p in t && t[p] == outcome.written[p])
      ensures p !in outcome.written && p in outcome.removed ==> p !in Changed(files, outcome.removed, outcome.written)
      ensures p !in outcome.written && p !in outcome.removed ==>
                SameAt(Changed(files, outcome.removed, outcome.written), files, p)
    {
      ProgramChanges(files, outcome.removed, outcome.written, p);
    }
  }

  /** An answer can be heard, and the client has its prompt again. */
  lemma AnswerHeard(w: World, files: map<string, string>, events: seq<Event>)
    requires Run(w, files, events).Some?
    requires Run(w, files, events).value.client.Waiting? && Run(w, files, events).value.down != []
    ensures AtPromptAfter(w, files, events + [Hear])
    ensures Run(w, files, events + [Hear]).value.files == Run(w, files, events).value.files
  {
    hide Run;
    OneMore(w, files, events, Run(w, files, events).value, Hear);
  }

  /** A copy whose file fits into a datagram can be gone through to the end: the three sends,
      the three receives and the answer, "@Success". `CopyIsExact` says what it leaves. */
  lemma CopyRuns(w: World, files: map<string, string>, before: seq<Event>, source: string, target: string,
                 outcome: Outcome)
    requires AtPromptAfter(w, files, before) && CanBeTyped(CopyCommand(source, target))
    requires ' ' !in source && |target| <= 65498
    requires source in w.local ==> |w.local[source]| <= 65507
    ensures var line := CopyCommand(source, target); var sends := [Ask(line)] + [SendSize] + [SendText];
            var takes := [Take(outcome)] + [Take(outcome)] + [Take(outcome)];
            && Run(w, files, before + (sends + takes)).Some?
            && Run(w, files, before + (sends + takes)).value.down == ["@Success"]
            && AtPromptAfter(w, files, before + (sends + takes) + [Hear])
  {
    hide Typed, Run, Parse, TextOf, Atoi, Decimal, Received, Write;
    var line := CopyCommand(source, target);
    var content := Content(w, source);
    PromptState(w, files, before);
    CopyLine(source, target);
    TypedIsClean(line);
    ParseSent(target);
    SizeSent(content);
    var s := Run(w, files, before).value;
    OneMore(w, files, before, s, Ask(line));
    var s1 := After(w, s, Ask(line));
    var e1 := before + [Ask(line)];
    OneMore(w, files, e1, s1, SendSize);
    var s2 := After(w, s1, SendSize);
    OneMore(w, files, e1 + [SendSize], s2, SendText);
    var s3 := After(w, s2, SendText);
    var e3 := e1 + [SendSize] + [SendText];
    assert s3.up == [Packet(IsCommand, COPY_PREFIX + target), SizePacket(content), Packet(IsText, content)];
    ThreeTaken(w, files, e3, s3, target, content, outcome);
    assert e3 + [Take(outcome)] + [Take(outcome)] + [Take(outcome)]
        == before + ([Ask(line)] + [SendSize] + [SendText] + ([Take(outcome)] + [Take(outcome)] + [Take(outcome)]));
    AnswerHeard(w, files, e3 + [Take(outcome)] + [Take(outcome)] + [Take(outcome)]);
  }

  lemma ThreeTaken(w: World, files: map<string, string>, events: seq<Event>, s: Sys, target: string, content: string,
                   outcome: Outcome)
    requires Run(w, files, events) == Some(s) && s.server == Idle && s.down == []
    requires s.up == [Packet(IsCommand, COPY_PREFIX + target), SizePacket(content), Packet(IsText, content)]
    requires NoNul(target)
    ensures var r := Run(w, files, events + [Take(outcome)] + [Take(outcome)] + [Take(outcome)]);
            r.Some? && r.value.client == s.client && r.value.down == ["@Success"]
  {
    hide Run, Parse, TextOf, Atoi, Decimal, Received, Write;
    ParseSent(target);
    OneMore(w, files, events, s, Take(outcome));
    var s1 := After(w, s, Take(outcome));
    OneMore(w, files, events + [Take(outcome)], s1, Take(outcome));
    var s2 := After(w, s1, Take(outcome));
    OneMore(w, files, events + [Take(outcome)] + [Take(outcome)], s2, Take(outcome));
  }
}
