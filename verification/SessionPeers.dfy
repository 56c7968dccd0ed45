/** The two ends of the command session as the sources write them: objects that send,
    receive and keep files, in place. Each method is tied to the steps of the transition
    system in `Session`.
 */
module SessionPeers {
  import opened CText
  import opened Commands
  import opened Session

  function BytesOf(packets: seq<Packet>): (r: seq<string>)
    ensures |r| == |packets|
  {
    seq(|packets|, i requires 0 <= i < |packets| => packets[i].bytes)
  }

  // ---------------------------------------------------------------- server/src/tasks.c, additionals_to_admins.c

  /** How a handler of the server comes back, if it does. */
  datatype Return =
    | Code(code: int)
    | Waits           // in a receive, for a datagram that has not arrived
    | Never           // waits for a program that never ends
    | Crash           // no defined result

  /** How `Copy_to` comes back with these datagrams arrived, how many of them it takes, and
      what the file holds then. */
  function CopyResult(inbox: seq<string>): (r: (Return, nat, string))
    ensures r.1 <= |inbox| && (r.0 == Waits || r.0 == Code(1))
  {
    if inbox == [] then (Waits, 0, "")
    else
      var size := Atoi(TextOf(inbox[0]));
      if |inbox| == 1 then (Waits, 1, "")
      else (Code(1), 2, Received(inbox[1], size))
  }

  /** From the two datagrams an honest client sends, whatever arrives behind them, the file
      gets exactly the content. */
  lemma HonestCopy(content: string, later: seq<string>)
    requires OneDatagram(content)
    ensures CopyResult([Decimal(|content|), content] + later) == (Code(1), 2, content)
  {
    hide Atoi, TextOf, Decimal, Received;
    SizeSent(content);
  }

  class ServerSide {
    const world: World
    var inbox: seq<string>            // datagrams that have arrived
    var outbox: seq<string>
    var files: map<string, string>
    var launched: seq<seq<string>>    // argument vectors handed to execvp

    constructor (world: World, files: map<string, string>)
      ensures this.world == world && this.files == files && inbox == [] && outbox == [] && launched == []
    {
      this.world, this.files := world, files;
      inbox, outbox, launched := [], [], [];
    }

    /** What this object holds is what the server has in the state `s`. */
    ghost predicate Shows(s: Sys)
      reads this
    {
      inbox == BytesOf(s.up) && outbox == s.down && files == s.files
    }

    method Receive() returns (bytes: string)
      requires inbox != []
      modifies this`inbox
      ensures bytes == old(inbox)[0] && inbox == old(inbox)[1..]
    {
      bytes := inbox[0];
      inbox := inbox[1..];
    }

    /** `Copy_to`: open and truncate, receive the size, receive that many bytes, write,
        answer; `HonestCopy` says what comes of the datagrams that a client sends. */
    method CopyTo(path: string) returns (r: Return)
      modifies this`inbox, this`outbox, this`files
      ensures var (c, n, text) := CopyResult(old(inbox));
              && r == c && inbox == old(inbox)[n..] && files == Write(world, old(files), path, text)
              && outbox == old(outbox) + if r == Code(1) then ["@Success"] else []
      ensures forall p :: p != path ==> SameAt(files, old(files), p)
    {
      hide Atoi, TextOf, Decimal, Received, Write, SameAt;
      ghost var files0 := files;
      files := Write(world, files, path, "");
      WriteChanges(world, files0, path, "");
      if inbox == [] {
        return Waits;
      }
      var sizeText := Receive();
      var size := Atoi(TextOf(sizeText));
      if inbox == [] {
        return Waits;
      }
      var text := Receive();
      files := Write(world, files, path, Received(text, size));
      outbox := outbox + [SUCCESS];
      WriteTwice(world, files0, path, Received(text, size));
      WriteChanges(world, files0, path, Received(text, size));
      r := Code(1);
    }

    /** `Do_usual`: the command is split in its buffer, the program is started with the
        arguments that the pointer table then hands over, which are the words of the
        command, and what it printed is sent. The code is 1 in the parent after the program
        has ended and -9 in the child whose `execvp` failed. */
    method DoUsual(command: array<char>, outcome: Outcome, ghost text: string) returns (r: Return)
      requires command.Length == MAX_COMMAND_LENGTH && |text| < MAX_COMMAND_LENGTH && NoNul(text)
      requires command[..] == Padded(text, MAX_COMMAND_LENGTH)
      modifies this`outbox, this`files, this`launched, command
      ensures r == Crash <==> Overruns(text)
      ensures r == Crash ==> launched == old(launched) && outbox == old(outbox) && files == old(files)
      ensures r != Crash ==> launched == old(launched) + [Words(text)]
      ensures r != Crash ==>
                && r == (if outcome.NotStarted? then Code(-9) else if Finishes(outcome) then Code(1) else Never)
                && outbox == old(outbox) + (if Answers(outcome) then [outcome.output] else [])
                && files == if Finishes(outcome) then Changed(old(files), outcome.removed, outcome.written)
                            else old(files)
    {
      hide Words, Padded, CStr, Vector;
      var argv := new Option<nat>[ARGV_SLOTS](_ => None);
      var count, inBounds := SplitArguments(command, argv, text);
      if !inBounds {
        return Crash;
      }
      VectorIsWords(command[..], argv[..], Words(text), 0);
      launched := launched + [Vector(command[..], argv[..], 0)];
      if outcome.NotStarted? {
        return Code(-9);
      }
      if !Finishes(outcome) {
        return Never;
      }
      files := Changed(files, outcome.removed, outcome.written);
      if Answers(outcome) {
        outbox := outbox + [outcome.output];
      }
      r := Code(1);
    }

    /** One turn of `while (code) { Get_message; code = Parser }`, on any datagram. It takes
        the datagrams, writes the files and sends the replies of as many steps of the
        transition system as it takes datagrams, and comes back as the system then stands:
        with code 0 exactly when it stops. */
    method Turn(outcome: Outcome, ghost s: Sys) returns (r: Return, ghost t: Sys)
      requires inbox != [] && Shows(s) && s.server == Idle && OneDatagram(inbox[0])
      modifies this
      ensures |inbox| < |old(inbox)| && t == Takes(world, s, outcome, |old(inbox)| - |inbox|) && Shows(t)
      ensures var c := Parse(TextOf(old(inbox)[0]));
              launched == old(launched) + if c.Execute? && !Overruns(c.args) then [Words(c.args)] else []
      ensures Parse(TextOf(old(inbox)[0])) == Refused ==> r == Code(-1)
      ensures t.server == Stopped <==> r == Code(0)
      ensures t.server == Idle <==> r.Code? && r != Code(0)
      ensures t.server == ServerCrashed <==> r == Crash
      ensures t.server == Blocked <==> r == Never
      ensures t.server.NeedSize? || t.server.NeedText? <==> r == Waits
    {
      hide Parse, Atoi, TextOf, Received, Write, BytesOf, Takes, Padded, Overruns, Words;
      DropBytes(s.up, 1);
      TakesOne(world, s, outcome);
      var bytes := Receive();
      t := AfterTake(world, s, outcome);
      CleanText(bytes);
      var command, args := ParseMessage(TextOf(bytes));
      match command {
        case Disconnect => r := Code(0);
        case Execute(rest) =>
          r := DoUsual(args, outcome, rest);
        case CopyTo(path) =>
          r, t := CopyTurn(path, outcome, s);
        case Refused => r := Code(-1);
        case NullCut => r := Crash;
        case CopyFrom(_) => r := Crash;
      }
    }

    /** The turn from the handler of a copy on; its first datagram is taken already. */
    method CopyTurn(path: string, outcome: Outcome, ghost s: Sys) returns (r: Return, ghost t: Sys)
      requires s.up != [] && s.server == Idle && Parse(TextOf(s.up[0].bytes)) == Command.CopyTo(path)
      requires inbox == BytesOf(s.up[1..]) && outbox == s.down && files == s.files
      modifies this`inbox, this`outbox, this`files
      ensures |inbox| < |s.up| && t == Takes(world, s, outcome, |s.up| - |inbox|) && Shows(t)
      ensures match t.server
              case NeedSize(_) => r == Waits
              case NeedText(_, _) => r == Waits
              case Idle => r == Code(1)
              case _ => false
    {
      hide Parse, Atoi, TextOf, Received, Write, BytesOf, Takes, AfterTake, Decimal, CopyResult;
      var taken := CopyResult(inbox).1;
      CopyTakes(world, s, outcome, path);
      DropBytes(s.up, 1);
      DropBytes(s.up, taken + 1);
      r := CopyTo(path);
      t := Takes(world, s, outcome, taken + 1);
    }

    /** The receive buffer and the two buffers of `Parser`. What lies behind a NUL in the
        datagram is not looked at. */
    method ParseMessage(text: string) returns (command: Command, args: array<char>)
      requires |text| < MAX_COMMAND_LENGTH && NoNul(text)
      ensures command == Parse(text) && fresh(args)
      ensures command.Execute? ==>
                && args.Length == MAX_COMMAND_LENGTH && |command.args| < MAX_COMMAND_LENGTH && NoNul(command.args)
                && args[..] == Padded(command.args, MAX_COMMAND_LENGTH)
    {
      hide IndexOf, Padded;
      var message := new char[MAX_COMMAND_LENGTH](_ => '\0');
      var cmd := new char[MAX_COMMAND_LENGTH](_ => '\0');
      args := new char[MAX_COMMAND_LENGTH](_ => '\0');
      assert message[..] == cmd[..] == args[..] == Zeros(MAX_COMMAND_LENGTH);
      Fill(message, text);
      command := Parser(message, cmd, args, text);
    }
  }

  lemma CleanText(bytes: string)
    requires OneDatagram(bytes)
    ensures NoNul(TextOf(bytes)) && |TextOf(bytes)| < MAX_COMMAND_LENGTH
  {
    IndexOfFirst(bytes, '\0', 0, IndexOf(bytes, '\0', 0));
  }

  lemma DropBytes(packets: seq<Packet>, n: nat)
    requires n <= |packets|
    ensures BytesOf(packets[n..]) == BytesOf(packets)[n..]
    ensures forall i :: 0 <= i < |packets| ==> BytesOf(packets)[i] == packets[i].bytes
  {
  }

  /** `n` receives of the server, one after the other. */
  ghost function Takes(w: World, s: Sys, outcome: Outcome, n: nat): Sys
    requires n <= |s.up|
    decreases n
  {
    if n == 0 then s else Takes(w, AfterTake(w, s, outcome), outcome, n - 1)
  }

  lemma TakesOne(w: World, s: Sys, outcome: Outcome)
    requires s.up != []
    ensures Takes(w, s, outcome, 1) == AfterTake(w, s, outcome)
  {
    assert Takes(w, AfterTake(w, s, outcome), outcome, 0) == AfterTake(w, s, outcome);
  }

  /** The state in which the handler of a copy has taken what there is for it. */
  ghost function CopyState(w: World, s: Sys, path: string): Sys
    requires s.up != []
  {
    var (c, n, text) := CopyResult(BytesOf(s.up[1..]));
    var t := s.(up := s.up[n + 1..], files := Write(w, s.files, path, text));
    match c
    case Waits => t.(server := if n == 0 then NeedSize(path) else NeedText(path, Atoi(TextOf(s.up[1].bytes))))
    case _ => t.(done := s.done + [Copied(path, text)], down := s.down + [SUCCESS])
  }

  /** The receives of a copy, as many as there are datagrams for: with all three it is
      carried out as one write. */
  lemma CopyTakes(w: World, s: Sys, outcome: Outcome, path: string)
    requires s.up != [] && s.server == Idle && Parse(TextOf(s.up[0].bytes)) == CopyTo(path)
    ensures Takes(w, s, outcome, CopyResult(BytesOf(s.up[1..])).1 + 1) == CopyState(w, s, path)
  {
    hide Parse, Atoi, TextOf, Received, Write, BytesOf;
    DropBytes(s.up, 1);
    var s1 := s.(up := s.up[1..], server := NeedSize(path), files := Write(w, s.files, path, ""));
    assert AfterTake(w, s, outcome) == s1;
    TakesOne(w, s, outcome);
    if |s.up| >= 2 {
      var size := Atoi(TextOf(s.up[1].bytes));
      var s2 := s1.(up := s.up[2..], server := NeedText(path, size));
      assert AfterTake(w, s1, outcome) == s2;
      TakesOne(w, s1, outcome);
      if |s.up| >= 3 {
        TakesOne(w, s2, outcome);
        WriteTwice(w, s.files, path, Received(s.up[2].bytes, size));
      }
    }
  }

  // ---------------------------------------------------------------- client/src/command.c, client.c

  function Sendable(bytes: string): (r: seq<string>)
    ensures r == if |bytes| <= 65507 then [bytes] else []
  {
    if OneDatagram(bytes) then [bytes] else []
  }

  /** Everything a copy puts on the wire. */
  function CopyDatagrams(target: string, content: string): seq<string> {
    Sendable(COPY_PREFIX + target) + [Decimal(|content|)] + Sendable(content)
  }

  class ClientSide {
    const world: World
    var sent: seq<string>             // datagrams sent to the server

    constructor (world: World)
      ensures this.world == world && sent == []
    {
      this.world := world;
      sent := [];
    }

    /** `sendto`, whose result is not looked at. */
    method Send(bytes: string)
      modifies this`sent
      ensures sent == old(sent) + Sendable(bytes)
    {
      if OneDatagram(bytes) {
        sent := sent + [bytes];
      }
    }

    /** The sends of `Command_copy_to`. The message is cut in place at its first space;
        without one the code would write through a null pointer. */
    method CommandCopyTo(message: array<char>, ghost arg: string) returns (crashed: bool)
      requires |arg| < MAX_COMMAND_LENGTH && NoNul(arg)
      requires message.Length == MAX_COMMAND_LENGTH && message[..] == Padded(arg, MAX_COMMAND_LENGTH)
      modifies this, message
      ensures crashed <==> ' ' !in arg
      ensures var i := IndexOf(arg, ' ', 0);
              sent == old(sent) + if i == |arg| then [] else CopyDatagrams(arg[i + 1..], Content(world, arg[..i]))
      ensures var i := IndexOf(arg, ' ', 0); i < |arg| ==>
                var text := if arg[..i] in world.local then world.local[arg[..i]] else "";
                sent == old(sent) + Sendable("@Copy_to " + arg[i + 1..]) + [Decimal(|text|)] + Sendable(text)
    {
      hide IndexOf, CStr, StrChr, Padded, Decimal;
      WholeText(arg);
      SpaceSplits(arg);
      var space := StrChr(message[..], 0, ' ');
      if space.None? {
        return true;
      }
      var i := space.value;
      message[i] := '\0';
      CutText(arg, i);
      var source, target := CStr(message[..], 0), CStr(message[..], i + 1);
      var text := Content(world, source);
      Send(COPY_PREFIX + target);
      sent := sent + [Decimal(|text|)];      // at most 19 digits
      Send(text);
      crashed := false;
    }

    /** `Do_task` up to the wait for a reply: its code is 0 exactly for the exit command, and
        what it sends is what the transition system sends for the same input. */
    method DoTask(cmd: array<char>, arg: array<char>, ghost input: Input) returns (code: int, crashed: bool)
      requires cmd != arg && cmd.Length == arg.Length == MAX_COMMAND_LENGTH
      requires |input.cmd| < MAX_COMMAND_LENGTH && |input.arg| < MAX_COMMAND_LENGTH
      requires NoNul(input.cmd) && NoNul(input.arg)
      requires cmd[..] == Padded(input.cmd, MAX_COMMAND_LENGTH) && arg[..] == Padded(input.arg, MAX_COMMAND_LENGTH)
      modifies this, arg
      ensures sent == old(sent) + Datagrams(world, RequestOf(input))
      ensures crashed <==> (input.cmd == "@copy_to" && ' ' !in input.arg) || input.cmd == "@copy_from"
      ensures !crashed ==> (code == 0 <==> input.cmd == "@exit")
      ensures input.cmd == "@exit" ==> sent == old(sent) + ["@Disconnected"]
      ensures input.cmd == "" || input.cmd[0] != '@' ==>
                code == 1 && sent == old(sent) + Sendable("@# " + (input.cmd + " " + input.arg))
      ensures input.cmd != "" && input.cmd[0] == '@' && input.cmd != "@exit" && input.cmd != "@copy_to" ==>
                sent == old(sent)
    {
      hide CStr, StrChr, Padded, IndexOf, Decimal, CopyDatagrams, Content, Sendable;
      WholeText(input.cmd);
      WholeText(input.arg);
      SpaceSplits(input.arg);
      var name, rest := CStr(cmd[..], 0), CStr(arg[..], 0);
      code, crashed := -1, false;
      if name == "@exit" {
        sent := sent + [GOODBYE];
        code := 0;
      } else if name == "@copy_to" {
        crashed := CommandCopyTo(arg, input.arg);
        code := 1;
      } else if name == "@copy_from" {
        crashed := true;               // a function without a return value
      } else if name != "" && name[0] == '@' {
        // unknown command
      } else {
        Send(EXEC_PREFIX + (name + " " + rest));
        code := 1;
      }
    }
  }

  /** Everything the client sends for a request before it waits. */
  function Datagrams(w: World, r: Request): seq<string> {
    match r
    case Exit => [GOODBYE]
    case Exec(text) => Sendable(EXEC_PREFIX + text)
    case Copy(source, target) => CopyDatagrams(target, Content(w, source))
    case _ => []
  }

  /** The state once the client has sent what it was about to send. */
  ghost function AllSent(w: World, s: Sys): Sys {
    if s.client.SendingSize? then After(w, After(w, s, SendSize), SendText) else s
  }

  /** The same datagrams that the transition system puts on the wire, in the same order. */
  lemma DatagramsAreSent(w: World, s: Sys, line: string)
    requires Enabled(w, s, Ask(line))
    ensures BytesOf(s.up) + Datagrams(w, Typed(line)) == BytesOf(AllSent(w, After(w, s, Ask(line))).up)
  {
    hide Typed, Decimal;
    var r := Typed(line);
    if r.Copy? {
      var u := AllSent(w, After(w, s, Ask(line)));
      var content := Content(w, r.source);
      assert u.up == s.up + Wire(Packet(IsCommand, COPY_PREFIX + r.target)) + [SizePacket(content)]
                     + Wire(Packet(IsText, content));
    }
  }
}
