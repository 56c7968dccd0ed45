/** The command session: the client's prompt commands and the server's receive-and-parse
    loop over two ordered, lossless datagram queues. A request is one datagram for a
    command and three for a file copy; nothing in a datagram tells which it is.
 */
module Session {
  import opened CText
  import opened Commands

  // ---------------------------------------------------------------- the client's side

  /** What `Do_task` makes of an input. */
  datatype Request =
    | Exit
    | Exec(text: string)
    | Copy(source: string, target: string)
    | CopyNoSpace                    // the cut writes through a null pointer
    | CopyBack                       // Command_copy_from: an empty body
    | Unknown

  function RequestOf(input: Input): Request {
    if input.cmd == "@exit" then Exit
    else if input.cmd == "@copy_to" then
      var i := IndexOf(input.arg, ' ', 0);
      if i == |input.arg| then CopyNoSpace else Copy(input.arg[..i], input.arg[i + 1..])
    else if input.cmd == "@copy_from" then CopyBack
    else if input.cmd != "" && input.cmd[0] == '@' then Unknown
    else Exec(input.cmd + " " + input.arg)
  }

  /** What each datagram is for. The server never looks at this; it serves to state which
      of them it mistakes for which. */
  datatype Kind = IsCommand | IsSize | IsText
  datatype Packet = Packet(kind: Kind, bytes: string)

  const DATAGRAM_LIMIT := 65507

  predicate OneDatagram(bytes: string) { |bytes| <= DATAGRAM_LIMIT }

  /** What a send puts on the wire: one that does not fit into a datagram fails, and nobody
      looks at its result. */
  function Wire(p: Packet): (r: seq<Packet>)
    ensures |r| <= 1
  {
    if OneDatagram(p.bytes) then [p] else []
  }

  /** The files of the client's host and the paths the server's `open` refuses. */
  datatype World = World(local: map<string, string>, denied: set<string>)

  /** A file that cannot be opened is sent as an empty one: `fstat` fails and the zeroed
      `st_size` stays. */
  function Content(w: World, path: string): string {
    if path in w.local then w.local[path] else ""
  }

  // ---------------------------------------------------------------- the two processes

  /** What a request asks of the server. */
  datatype Op = Ran(command: string) | Stored(path: string, bytes: string)

  /** All its datagrams fit; the size always does. */
  predicate Whole(op: Op) {
    match op
    case Ran(command) => OneDatagram(EXEC_PREFIX + command)
    case Stored(path, bytes) => OneDatagram(COPY_PREFIX + path) && OneDatagram(bytes)
  }

  /** What the server has carried out for one: a command with what its program did to the
      files, or a copy. */
  datatype Deed =
    | Executed(command: string, removed: set<string>, written: map<string, string>)
    | Copied(path: string, bytes: string)

  function OpOf(d: Deed): Op {
    match d
    case Executed(command, _, _) => Ran(command)
    case Copied(path, bytes) => Stored(path, bytes)
  }

  function Ops(deeds: seq<Deed>): (r: seq<Op>)
    ensures |r| == |deeds|
  {
    seq(|deeds|, i requires 0 <= i < |deeds| => OpOf(deeds[i]))
  }

  lemma OpsSnoc(deeds: seq<Deed>, d: Deed)
    ensures Ops(deeds + [d]) == Ops(deeds) + [OpOf(d)]
  {
  }

  datatype Client =
    | AtPrompt
    | SendingSize(target: string, content: string)
    | SendingText(target: string, content: string)
    | Waiting(op: Op)
    | Left
    | ClientCrashed

  datatype Server =
    | Idle                                  // in Get_message
    | NeedSize(path: string)                // in Copy_to, first receive
    | NeedText(path: string, size: int)     // in Copy_to, second receive
    | Blocked                               // in Do_usual, waiting for a program for ever
    | Stopped
    | ServerCrashed

  datatype Sys = Sys(
    client: Client, server: Server,
    up: seq<Packet>, down: seq<string>,
    files: map<string, string>,             // on the server's host
    asked: seq<Op>, done: seq<Deed>)        // history: requests made, requests carried out

  function Initial(files: map<string, string>): Sys {
    Sys(AtPrompt, Idle, [], [], files, [], [])
  }

  /** What becomes of a command. The program ends, having printed `output` and changed the
      files; or it never ends; or `execvp` fails: then the forked child returns from
      `Do_usual` and goes on receiving in the server's place without having answered, while
      its parent waits for it. */
  datatype Outcome =
    | Ends(output: string, removed: set<string>, written: map<string, string>)
    | NeverEnds
    | NotStarted

  /** The server reads the pipe only after the program has ended, so a program that has
      more to print than the pipe takes waits for ever. */
  const PIPE_CAPACITY := 65536

  predicate Finishes(o: Outcome) { o.Ends? && |o.output| <= PIPE_CAPACITY }

  /** Output that does not fit into one datagram is not sent at all. */
  predicate Answers(o: Outcome) { o.Ends? && OneDatagram(o.output) }

  datatype Event =
    | Ask(line: string)                     // a line typed at the prompt
    | SendSize | SendText
    | Hear                                  // the client takes the reply
    | Take(outcome: Outcome)                // the server takes a datagram

  function Typed(line: string): Request
    requires line != ""
  {
    RequestOf(InputOf(line[..|line| - 1]))
  }

  predicate Receiving(server: Server) { server == Idle || server.NeedSize? || server.NeedText? }

  predicate Enabled(w: World, s: Sys, e: Event) {
    match e
    case Ask(line) =>
      && s.client.AtPrompt?
      && 0 < |line| < MAX_COMMAND_LENGTH && NoNul(line)
    case SendSize => s.client.SendingSize?
    case SendText => s.client.SendingText?
    case Hear => s.client.Waiting? && s.down != []
    case Take(outcome) => Receiving(s.server) && s.up != []
  }

  predicate Opens(w: World, path: string) { path != "" && path !in w.denied }

  function Write(w: World, files: map<string, string>, path: string, bytes: string): map<string, string> {
    if Opens(w, path) then files[path := bytes] else files
  }

  function Changed(files: map<string, string>, removed: set<string>, written: map<string, string>)
    : map<string, string>
  {
    files - removed + written
  }

  /** `size` bytes of a zeroed buffer into which a datagram was received. With a negative
      size the allocation, the receive and the write fail one after the other. */
  function Received(bytes: string, size: int): string {
    if size < 0 then ""
    else if |bytes| >= size then bytes[..size]
    else bytes + Zeros(size - |bytes|)
  }

  /** The receive takes no more than it asked for, and what it did not get is NUL. */
  lemma ReceivedIs(bytes: string, size: int)
    ensures var r := Received(bytes, size);
            && |r| == (if size < 0 then 0 else size)
            && forall j :: 0 <= j < |r| ==> r[j] == if j < |bytes| then bytes[j] else '\0'
  {
  }

  function AfterAsk(w: World, s: Sys, r: Request): Sys {
    match r
    case Exit => s.(client := Left, up := s.up + [Packet(IsCommand, GOODBYE)])
    case Exec(text) =>
      s.(client := Waiting(Ran(text)), up := s.up + Wire(Packet(IsCommand, EXEC_PREFIX + text)),
         asked := s.asked + [Ran(text)])
    case Copy(source, target) =>
      s.(client := SendingSize(target, Content(w, source)),
         up := s.up + Wire(Packet(IsCommand, COPY_PREFIX + target)),
         asked := s.asked + [Stored(target, Content(w, source))])
    case CopyNoSpace => s.(client := ClientCrashed)
    case CopyBack => s.(client := ClientCrashed)   // a function without a return value
    case Unknown => s
  }

  /** `Do_usual` on a command that has just been taken. */
  function AfterCommand(t: Sys, args: string, outcome: Outcome): (u: Sys)
    ensures u.up == t.up && u.client == t.client && u.asked == t.asked && |u.down| <= |t.down| + 1
  {
    if Overruns(args) then t.(server := ServerCrashed)
    else if outcome.NotStarted? then t
    else if !Finishes(outcome) then t.(server := Blocked)
    else t.(done := t.done + [Executed(args, outcome.removed, outcome.written)],
            files := Changed(t.files, outcome.removed, outcome.written),
            down := t.down + if Answers(outcome) then [outcome.output] else [])
  }

  /** One receive of the server, in whichever of its three receives it stands. */
  function AfterTake(w: World, s: Sys, outcome: Outcome): (u: Sys)
    requires s.up != []
    ensures u.up == s.up[1..] && u.client == s.client && u.asked == s.asked && |u.down| <= |s.down| + 1
  {
    var bytes := s.up[0].bytes;
    var t := s.(up := s.up[1..]);
    match s.server
    case Idle =>
      (match Parse(TextOf(bytes))
       case Disconnect => t.(server := Stopped)
       case Execute(args) => AfterCommand(t, args, outcome)
       case CopyTo(args) => t.(server := NeedSize(args), files := Write(w, s.files, args, ""))
       case CopyFrom(_) => t.(server := ServerCrashed)   // no defined result
       case Refused => t
       case NullCut => t.(server := ServerCrashed))
    case NeedSize(path) => t.(server := NeedText(path, Atoi(TextOf(bytes))))
    case NeedText(path, size) =>
      var text := Received(bytes, size);
      t.(server := Idle, files := Write(w, s.files, path, text),
         done := s.done + [Copied(path, text)], down := s.down + [SUCCESS])
    case _ => t
  }

  function After(w: World, s: Sys, e: Event): Sys
    requires Enabled(w, s, e)
  {
    match e
    case Ask(line) => AfterAsk(w, s, Typed(line))
    case SendSize =>
      s.(client := SendingText(s.client.target, s.client.content),
         up := s.up + [Packet(IsSize, Decimal(|s.client.content|))])
    case SendText =>
      s.(client := Waiting(Stored(s.client.target, s.client.content)),
         up := s.up + Wire(Packet(IsText, s.client.content)))
    case Hear => s.(client := AtPrompt, down := s.down[1..])
    case Take(outcome) => AfterTake(w, s, outcome)
  }

  function Run(w: World, files: map<string, string>, events: seq<Event>): Option<Sys> {
    if events == [] then Some(Initial(files))
    else match Run(w, files, events[..|events| - 1])
      case None => None
      case Some(s) =>
        var e := events[|events| - 1];
        if Enabled(w, s, e) then Some(After(w, s, e)) else None
  }

  // ---------------------------------------------------------------- lockstep

  /** What the server reads from the size datagram. */
  function SizeRead(content: string): int { Atoi(TextOf(Decimal(|content|))) }

  function SizePacket(content: string): Packet { Packet(IsSize, Decimal(|content|)) }

  /** The datagrams of a copy whose first one fits, in the order in which they are sent. */
  function CopyPackets(target: string, content: string): (r: seq<Packet>)
    ensures 2 <= |r| <= 3
  {
    [Packet(IsCommand, COPY_PREFIX + target), SizePacket(content)] + Wire(Packet(IsText, content))
  }

  function Min(a: nat, b: nat): nat { if a < b then a else b }

  /** The server has taken the first `k` datagrams of this copy after `sent` sends. */
  predicate CopyTaken(s: Sys, target: string, content: string, sent: nat, k: nat) {
    var all := CopyPackets(target, content);
    var n := Min(sent, |all|);
    && k <= n && k < 3
    && s.up == all[k..n]
    && s.server == (if k == 0 then Idle else if k == 1 then NeedSize(target) else NeedText(target, SizeRead(content)))
  }

  /** A copy under way, `sent` of its datagrams sent, that is not yet carried out. */
  predicate CopyUnderWay(s: Sys, target: string, content: string, sent: nat) {
    && NoNul(target) && OneDatagram(COPY_PREFIX + target)
    && s.down == [] && s.asked == Ops(s.done) + [Stored(target, content)]
    && (|| CopyTaken(s, target, content, sent, 0)
        || CopyTaken(s, target, content, sent, 1)
        || CopyTaken(s, target, content, sent, 2))
  }

  /** A copy whose first datagram did not fit: the server waits for a command when the size
      arrives, and crashes on it. */
  predicate Headless(s: Sys, target: string, content: string, sent: nat) {
    var all := [SizePacket(content)] + Wire(Packet(IsText, content));
    && 1 <= sent <= 3 && !OneDatagram(COPY_PREFIX + target)
    && s.down == [] && s.asked == Ops(s.done) + [Stored(target, content)]
    && var n := Min(sent - 1, |all|);
       ((s.server == Idle && s.up == all[..n]) || (1 <= n && s.server == ServerCrashed && s.up == all[1..n]))
  }

  predicate CopyStage(s: Sys, target: string, content: string, sent: nat) {
    CopyUnderWay(s, target, content, sent) || Headless(s, target, content, sent)
  }

  predicate Quiet(s: Sys) {
    s.up == [] && s.down == [] && s.server == Idle && Ops(s.done) == s.asked
  }

  /** A command whose datagram is taken and that will not be answered. */
  predicate Silent(s: Sys, text: string) {
    && s.up == [] && s.down == [] && OneDatagram(EXEC_PREFIX + text)
    && ((s.server == Idle && !Overruns(text) && s.asked == Ops(s.done))
        || (s.server in {Idle, Blocked, ServerCrashed} && s.asked == Ops(s.done) + [Ran(text)]
            && (s.server == ServerCrashed <==> Overruns(text))))
  }

  /** A command not yet taken, or too long to be sent at all. */
  predicate Pending(s: Sys, text: string) {
    && s.up == Wire(Packet(IsCommand, EXEC_PREFIX + text)) && s.down == [] && s.server == Idle
    && NoNul(text) && s.asked == Ops(s.done) + [Ran(text)]
  }

  predicate WaitingInv(s: Sys, op: Op) {
    && s.asked != [] && s.asked[|s.asked| - 1] == op
    && match op
       case Stored(target, content) =>
         || CopyStage(s, target, content, 3)
         || (s.up == [] && s.down == [SUCCESS] && s.server == Idle && Ops(s.done) == s.asked)
       case Ran(text) =>
         || Pending(s, text)
         || (s.up == [] && |s.down| == 1 && s.server == Idle && Ops(s.done) == s.asked)
         || Silent(s, text)
  }

  /** Client and server are in step. */
  predicate InStep(s: Sys) {
    match s.client
    case AtPrompt => Quiet(s)
    case ClientCrashed => Quiet(s)
    case SendingSize(target, content) => CopyStage(s, target, content, 1)
    case SendingText(target, content) => CopyStage(s, target, content, 2)
    case Waiting(op) => WaitingInv(s, op)
    case Left =>
      && s.down == [] && Ops(s.done) == s.asked
      && ((s.up == [Packet(IsCommand, GOODBYE)] && s.server == Idle) || (s.up == [] && s.server == Stopped))
  }

  predicate Fine(op: Op) { Whole(op) && (op.Ran? ==> !Overruns(op.command)) }

  /** Whatever was carried out fitted into its datagrams and the pointer table. */
  predicate DoneFits(s: Sys) {
    forall i :: 0 <= i < |s.done| ==> Fine(OpOf(s.done[i]))
  }

  /** The server's files after what it has carried out. */
  function Replay(w: World, files: map<string, string>, deeds: seq<Deed>): map<string, string> {
    if deeds == [] then files else
      var before := Replay(w, files, deeds[..|deeds| - 1]);
      CarriedOut(w, before, deeds[|deeds| - 1])
  }

  function CarriedOut(w: World, files: map<string, string>, d: Deed): map<string, string> {
    match d
    case Executed(_, removed, written) => Changed(files, removed, written)
    case Copied(path, bytes) => Write(w, files, path, bytes)
  }

  /** The files are those of the requests carried out; during a copy its target is empty.
      Nothing is said while a program never ends. */
  predicate FilesInv(w: World, files: map<string, string>, s: Sys) {
    var settled := Replay(w, files, s.done);
    match s.server
    case NeedSize(path) => s.files == Write(w, settled, path, "")
    case NeedText(path, _) => s.files == Write(w, settled, path, "")
    case Blocked => true
    case _ => s.files == settled
  }

  // ---------------------------------------------------------------- parsing what was sent

  lemma TextOfClean(bytes: string)
    requires NoNul(bytes)
    ensures TextOf(bytes) == bytes
  {
    IndexOfFirst(bytes, '\0', 0, |bytes|);
  }

  /** Each command datagram is parsed as what it was sent for, and its argument comes out whole. */
  lemma ParseSent(argument: string)
    requires NoNul(argument)
    ensures Parse(TextOf(EXEC_PREFIX + argument)) == Execute(argument)
    ensures Parse(TextOf(COPY_PREFIX + argument)) == CopyTo(argument)
    ensures Parse(TextOf(GOODBYE)) == Disconnect
  {
    hide Parse, TextOf;
    ParseAt(EXEC_PREFIX + argument, "@#", argument);
    ParseAt(COPY_PREFIX + argument, "@Copy_to", argument);
    ParseGoodbye();
  }

  lemma ParseAt(m: string, name: string, argument: string)
    requires m == name + " " + argument && NoNul(m) && ' ' !in name
    requires name == "@#" || name == "@Copy_to"
    ensures Parse(TextOf(m)) == if name == "@#" then Execute(argument) else CopyTo(argument)
  {
    hide IndexOf, TextOf;
    TextOfClean(m);
    assert forall j :: 0 <= j < |name| ==> m[j] == name[j];
    IndexOfFirst(m, ' ', 0, |name|);
    assert m[..|name|] == name && m[|name| + 1..] == argument;
  }

  lemma ParseGoodbye()
    ensures Parse(TextOf(GOODBYE)) == Disconnect
  {
    hide IndexOf, TextOf;
    var m := GOODBYE;
    assert ' ' !in m && '\0' !in m;
    TextOfClean(m);
    NoSpaceToFind(m);
  }

  lemma NoSpaceToFind(m: string)
    requires ' ' !in m
    ensures IndexOf(m, ' ', 0) == |m|
  {
    IndexOfFirst(m, ' ', 0, |m|);
  }

  /** The decimal size is read back, so the receive takes the whole content and no more. */
  lemma SizeSent(content: string)
    requires OneDatagram(content)
    ensures SizeRead(content) == |content|
    ensures Received(content, |content|) == content
  {
    DecimalHasNo(|content|, '\0');
    TextOfClean(Decimal(|content|));
    AtoiRoundTrip(|content|, "");
    assert Decimal(|content|) + "" == Decimal(|content|);
  }

  /** From the prompt line to the request: parts of a NUL-free line are NUL-free. */
  lemma TypedIsClean(line: string)
    requires line != "" && NoNul(line)
    ensures var r := Typed(line);
            && (r.Exec? ==> NoNul(r.text))
            && (r.Copy? ==> NoNul(r.source) && NoNul(r.target) && ' ' !in r.source)
  {
    var text := line[..|line| - 1];
    assert forall c :: c in text ==> c in line;
    var input := InputOf(text);
    var i := IndexOf(input.arg, ' ', 0);
    IndexOfFirst(input.arg, ' ', 0, i);
  }

  // ---------------------------------------------------------------- every step keeps it

  lemma AskStep(w: World, s: Sys, line: string)
    requires InStep(s) && Enabled(w, s, Ask(line))
    ensures InStep(After(w, s, Ask(line)))
  {
    hide RequestOf, InputOf;
    TypedIsClean(line);
    var r := Typed(line);
    var t := AfterAsk(w, s, r);
    if r.Copy? {
      var content := Content(w, r.source);
      if OneDatagram(COPY_PREFIX + r.target) {
        assert CopyPackets(r.target, content)[0..1] == [Packet(IsCommand, COPY_PREFIX + r.target)];
        assert CopyTaken(t, r.target, content, 1, 0);
      } else {
        assert Headless(t, r.target, content, 1);
      }
    }
  }

  lemma SendStep(w: World, s: Sys, e: Event)
    requires InStep(s) && Enabled(w, s, e) && (e.SendSize? || e.SendText?)
    ensures InStep(After(w, s, e))
  {
    hide Decimal, Atoi, TextOf;
    var n := if e.SendSize? then 1 else 2;
    var t := After(w, s, e);
    var target, content := s.client.target, s.client.content;
    if Headless(s, target, content, n) {
      HeadlessSends(s, t, target, content, n);
    } else {
      UnderWaySends(s, t, target, content, n);
    }
  }

  /** The datagram that the send after `n` others puts on the wire. */
  function NextPacket(content: string, n: nat): seq<Packet>
    requires 1 <= n <= 2
  {
    if n == 1 then [SizePacket(content)] else Wire(Packet(IsText, content))
  }

  lemma UnderWaySends(s: Sys, t: Sys, target: string, content: string, n: nat)
    requires 1 <= n <= 2 && CopyUnderWay(s, target, content, n)
    requires t == s.(client := t.client, up := s.up + NextPacket(content, n))
    ensures CopyUnderWay(t, target, content, n + 1)
  {
    hide SizeRead, Ops, CopyPackets, NextPacket;
    forall k: nat | CopyTaken(s, target, content, n, k)
      ensures CopyTaken(t, target, content, n + 1, k)
    {
      NextSlice(target, content, n, k);
    }
  }

  lemma NextSlice(target: string, content: string, n: nat, k: nat)
    requires k <= n && 1 <= n <= 2
    ensures var all := CopyPackets(target, content);
            all[k..n] + NextPacket(content, n) == all[k..Min(n + 1, |all|)]
  {
    hide Decimal;
  }

  lemma HeadlessSends(s: Sys, t: Sys, target: string, content: string, n: nat)
    requires 1 <= n <= 2 && Headless(s, target, content, n)
    requires t == s.(client := t.client, up := s.up + NextPacket(content, n))
    ensures Headless(t, target, content, n + 1)
  {
    hide Decimal, Ops;
    var all := [SizePacket(content)] + Wire(Packet(IsText, content));
    assert all[..n - 1] + NextPacket(content, n) == all[..Min(n, |all|)];
    assert n == 2 ==> all[1..1] + NextPacket(content, n) == all[1..Min(2, |all|)];
  }

  /** A step adds at most one to what is carried out, and only what fits. */
  predicate Advances(s: Sys, t: Sys) {
    t.done == s.done || (|t.done| == |s.done| + 1 && t.done[..|s.done|] == s.done && Fine(OpOf(t.done[|s.done|])))
  }

  lemma TakeStep(w: World, s: Sys, outcome: Outcome)
    requires InStep(s) && Enabled(w, s, Take(outcome))
    ensures InStep(AfterTake(w, s, outcome)) && Advances(s, AfterTake(w, s, outcome))
  {
    match s.client
    case SendingSize(target, content) => CopyTakeStep(w, s, target, content, 1, outcome);
    case SendingText(target, content) => CopyTakeStep(w, s, target, content, 2, outcome);
    case Waiting(Stored(target, content)) => CopyTakeStep(w, s, target, content, 3, outcome);
    case Waiting(Ran(text)) => CommandTakeStep(w, s, text, outcome);
    case _ => ParseSent("");
  }

  /** A command is taken for what it is, and then answered or for ever silent. */
  lemma CommandTakeStep(w: World, s: Sys, text: string, outcome: Outcome)
    requires s.client == Waiting(Ran(text)) && InStep(s) && Enabled(w, s, Take(outcome))
    ensures OneDatagram(EXEC_PREFIX + text)
    ensures var t := AfterTake(w, s, outcome);
            && InStep(t) && Advances(s, t) && t.client == s.client && t.up == []
            && (if Overruns(text) || !Answers(outcome) then Silent(t, text)
                else t.down == [outcome.output] && t.server == Idle)
  {
    hide Parse, TextOf, Overruns, Changed, Ops;
    ParseSent(text);
    var t := AfterTake(w, s, outcome);
    if outcome.Ends? {
      OpsSnoc(s.done, Executed(text, outcome.removed, outcome.written));
    }
  }

  /** Within a copy whose first datagram fits, the server takes the next datagram for what
      it is; after the third one the copy is carried out, exactly, and answered. Without
      its first datagram it crashes. */
  lemma CopyTakeStep(w: World, s: Sys, target: string, content: string, sent: nat, outcome: Outcome)
    requires CopyStage(s, target, content, sent) && Enabled(w, s, Take(outcome)) && 1 <= sent <= 3
    ensures var t := AfterTake(w, s, outcome);
            && t.client == s.client && t.asked == s.asked && Advances(s, t)
            && (CopyStage(t, target, content, sent)
                || (sent == 3 && t.up == [] && t.down == [SUCCESS] && t.server == Idle && Ops(t.done) == t.asked))
  {
    if Headless(s, target, content, sent) {
      SizeIsNoCommand(content);
      assert Headless(AfterTake(w, s, outcome), target, content, sent) by {
        hide Parse, Atoi, TextOf, Decimal, Received;
      }
    } else {
      UnderWayTakes(w, s, target, content, sent, outcome);
    }
  }

  lemma UnderWayTakes(w: World, s: Sys, target: string, content: string, sent: nat, outcome: Outcome)
    requires CopyUnderWay(s, target, content, sent) && s.up != []
    ensures var t := AfterTake(w, s, outcome);
            && Advances(s, t)
            && (CopyUnderWay(t, target, content, sent)
                || (sent >= 3 && t.up == [] && t.down == [SUCCESS] && t.server == Idle && Ops(t.done) == t.asked))
  {
    hide Parse, Atoi, TextOf, Decimal, Received;
    ParseSent(target);
    var all := CopyPackets(target, content);
    var n := Min(sent, |all|);
    var t := AfterTake(w, s, outcome);
    var k := if s.server.Idle? then 0 else if s.server.NeedSize? then 1 else 2;
    assert CopyTaken(s, target, content, sent, k);
    assert s.up[0] == all[k] && s.up[1..] == all[k + 1..n];
    if k < 2 {
      assert CopyTaken(t, target, content, sent, k + 1);
    } else {
      SizeSent(content);
      OpsSnoc(s.done, Copied(target, content));
    }
  }

  /** A printed size is no command: it has no space to cut at. */
  lemma SizeIsNoCommand(content: string)
    ensures Parse(TextOf(Decimal(|content|))) == NullCut
  {
    hide IndexOf, TextOf;
    var m := Decimal(|content|);
    DecimalHasNo(|content|, '\0');
    DecimalHasNo(|content|, ' ');
    TextOfClean(m);
    NoSpaceToFind(m);
    assert IsDigit(m[0]);
  }

  lemma InStepKept(w: World, s: Sys, e: Event)
    requires InStep(s) && Enabled(w, s, e)
    ensures InStep(After(w, s, e))
  {
    match e
    case Ask(line) => AskStep(w, s, line);
    case Take(outcome) => TakeStep(w, s, outcome);
    case Hear =>
    case _ => SendStep(w, s, e);
  }

  lemma FilesKept(w: World, files: map<string, string>, s: Sys, e: Event)
    requires FilesInv(w, files, s) && Enabled(w, s, e)
    ensures FilesInv(w, files, After(w, s, e))
  {
    match e
    case Take(outcome) => FilesTaken(w, files, s, outcome);
    case _ => hide Parse, Atoi, TextOf, Received, RequestOf, InputOf;
  }

  lemma FilesTaken(w: World, files: map<string, string>, s: Sys, outcome: Outcome)
    requires FilesInv(w, files, s) && s.up != []
    ensures FilesInv(w, files, AfterTake(w, s, outcome))
  {
    hide Parse, Atoi, TextOf, Received, Write, Replay;
    var t := AfterTake(w, s, outcome);
    match s.server {
      case Idle =>
        match Parse(TextOf(s.up[0].bytes)) {
          case Execute(args) =>
            if outcome.Ends? {
              ReplayOne(w, files, s.done, Executed(args, outcome.removed, outcome.written));
            }
          case _ =>
        }
      case NeedText(path, size) =>
        ReplayOne(w, files, s.done, Copied(path, Received(s.up[0].bytes, size)));
        WriteTwice(w, Replay(w, files, s.done), path, Received(s.up[0].bytes, size));
      case _ =>
    }
  }

  lemma ReplayOne(w: World, files: map<string, string>, deeds: seq<Deed>, d: Deed)
    ensures Replay(w, files, deeds + [d]) == CarriedOut(w, Replay(w, files, deeds), d)
  {
    assert (deeds + [d])[..|deeds + [d]| - 1] == deeds;
  }

  lemma FitsKept(w: World, s: Sys, e: Event)
    requires InStep(s) && DoneFits(s) && Enabled(w, s, e)
    ensures DoneFits(After(w, s, e))
  {
    hide AfterTake, Typed, Fine, InStep;
    if e.Take? {
      TakeStep(w, s, e.outcome);
      FitsAdvance(s, AfterTake(w, s, e.outcome));
    }
  }

  lemma FitsAdvance(s: Sys, t: Sys)
    requires DoneFits(s) && Advances(s, t)
    ensures DoneFits(t)
  {
    hide Fine;
    assert t.done != s.done ==> forall i :: 0 <= i < |s.done| ==> t.done[i] == t.done[..|s.done|][i] == s.done[i];
  }

  /** Truncating on open and writing later is one write. */
  lemma WriteTwice(w: World, files: map<string, string>, path: string, bytes: string)
    ensures Write(w, Write(w, files, path, ""), path, bytes) == Write(w, files, path, bytes)
  {
  }

  lemma {:induction false} RunInv(w: World, files: map<string, string>, events: seq<Event>)
    ensures var r := Run(w, files, events); r.Some? ==>
              InStep(r.value) && FilesInv(w, files, r.value) && DoneFits(r.value)
  {
    if events != [] {
      var before := events[..|events| - 1];
      RunInv(w, files, before);
      var r := Run(w, files, before);
      if r.Some? && Enabled(w, r.value, events[|events| - 1]) {
        InStepKept(w, r.value, events[|events| - 1]);
        FilesKept(w, files, r.value, events[|events| - 1]);
        FitsKept(w, r.value, events[|events| - 1]);
      }
    }
  }

  // ---------------------------------------------------------------- what it means

  /** Lockstep. In every run, whenever the client is back at its prompt, both queues are
      empty, the server waits for a command, and it has carried out exactly the requests
      made, in order: the commands run are the commands typed, and its files are what those
      programs did to them and those copies, each with exactly the client's bytes, made of
      the initial ones. All these requests fitted into their datagrams and the pointer table. */
  lemma PromptMeansDone(w: World, files: map<string, string>, events: seq<Event>)
    ensures var r := Run(w, files, events); r.Some? && r.value.client.AtPrompt? ==>
              && r.value.up == [] && r.value.down == [] && r.value.server == Idle
              && Ops(r.value.done) == r.value.asked
              && r.value.files == Replay(w, files, r.value.done)
              && forall i :: 0 <= i < |r.value.asked| ==> Fine(r.value.asked[i])
  {
    RunInv(w, files, events);
    hide Run, Fine;
  }

  /** What the server cannot survive: a command that overruns the pointer table, and a copy
      whose first datagram does not fit, so that its size arrives as a command. */
  predicate Fatal(op: Op) {
    match op
    case Ran(command) => Whole(op) && Overruns(command)
    case Stored(path, _) => !OneDatagram(COPY_PREFIX + path)
  }

  predicate SomeFatal(ops: seq<Op>) {
    exists i :: 0 <= i < |ops| && Fatal(ops[i])
  }

  /** The request under way is a copy whose first datagram did not fit. */
  predicate LostHeader(s: Sys) {
    s.asked != [] && var op := s.asked[|s.asked| - 1]; op.Stored? && Fatal(op)
  }

  /** The datagram of the last request that the server takes for a command is sent and taken. */
  predicate CommandTaken(s: Sys) {
    !s.client.SendingSize? && (s.up == [] || s.up[0].kind == IsText)
  }

  predicate Matches(kind: Kind, server: Server) {
    && (kind == IsCommand <==> server == Idle)
    && (kind == IsSize <==> server.NeedSize?)
    && (kind == IsText <==> server.NeedText?)
  }

  /** When a datagram is mistaken: the server receives a command datagram only where it
      parses commands, a size only where it wants a size, and file content only where it
      wants content, whatever the content says, except exactly when the first datagram of
      the copy under way did not fit. It crashes exactly on taking the datagram that is, or
      passes for, the command of a fatal request, and stops only after the client has left. */
  lemma NeverMistaken(w: World, files: map<string, string>, events: seq<Event>)
    ensures var r := Run(w, files, events); r.Some? ==>
              var s := r.value;
              && (s.up != [] && Receiving(s.server) ==> (Matches(s.up[0].kind, s.server) <==> !LostHeader(s)))
              && (s.server == ServerCrashed <==> SomeFatal(s.asked) && CommandTaken(s))
              && (s.server == Stopped ==> s.client == Left)
  {
    hide Run, InStep, DoneFits;
    RunInv(w, files, events);
    var r := Run(w, files, events);
    if r.Some? {
      StateMistaken(r.value);
    }
  }

  lemma StateMistaken(s: Sys)
    requires InStep(s) && DoneFits(s)
    ensures s.up != [] && Receiving(s.server) ==> (Matches(s.up[0].kind, s.server) <==> !LostHeader(s))
    ensures s.server == ServerCrashed <==> SomeFatal(s.asked) && CommandTaken(s)
    ensures s.server == Stopped ==> s.client == Left
  {
    LastMayBeFatal(s);
    match s.client {
      case SendingSize(target, content) => CopyMistaken(s, target, content, 1);
      case SendingText(target, content) => CopyMistaken(s, target, content, 2);
      case Waiting(op) =>
        if op.Stored? && s.down == [] {
          CopyMistaken(s, op.path, op.bytes, 3);
        } else {
          hide Overruns, Decimal, SomeFatal;
        }
      case _ => hide Overruns, SomeFatal;
    }
  }

  lemma CopyMistaken(s: Sys, target: string, content: string, sent: nat)
    requires CopyStage(s, target, content, sent) && 1 <= sent <= 3
    requires sent == 1 ==> s.client.SendingSize?
    requires sent > 1 ==> !s.client.SendingSize?
    ensures s.up != [] && Receiving(s.server) ==> (Matches(s.up[0].kind, s.server) <==> !LostHeader(s))
    ensures s.server == ServerCrashed <==> Fatal(Stored(target, content)) && CommandTaken(s)
    ensures s.asked == Ops(s.done) + [Stored(target, content)] && s.server != Stopped
  {
    hide SizeRead, Ops, Decimal;
    assert s.asked[|s.asked| - 1] == Stored(target, content);
    if !Headless(s, target, content, sent) {
      var k := if s.server.Idle? then 0 else if s.server.NeedSize? then 1 else 2;
      assert CopyTaken(s, target, content, sent, k);
      var all := CopyPackets(target, content);
      assert all[0].kind == IsCommand && all[1].kind == IsSize && (|all| == 3 ==> all[2].kind == IsText);
      assert s.up != [] ==> s.up[0] == all[k];
    } else {
      var all := [SizePacket(content)] + Wire(Packet(IsText, content));
      assert all[0].kind == IsSize && (|all| == 2 ==> all[1].kind == IsText);
      assert s.up != [] ==> s.up[0] == all[if s.server.Idle? then 0 else 1];
    }
  }

  /** What is carried out is not fatal, so only the request under way can be. */
  lemma LastMayBeFatal(s: Sys)
    requires DoneFits(s)
    ensures !SomeFatal(Ops(s.done))
    ensures forall op: Op :: SomeFatal(Ops(s.done) + [op]) <==> Fatal(op)
    ensures s.asked == Ops(s.done) ==> !LostHeader(s)
  {
    var ops := Ops(s.done);
    assert forall i :: 0 <= i < |ops| ==> ops[i] == OpOf(s.done[i]) && !Fatal(ops[i]) by {
      hide Overruns;
    }
    hide Fatal;
    forall op: Op
      ensures SomeFatal(ops + [op]) <==> Fatal(op)
    {
      FatalSnoc(ops, op);
    }
  }

  lemma FatalSnoc(ops: seq<Op>, op: Op)
    ensures SomeFatal(ops + [op]) <==> SomeFatal(ops) || Fatal(op)
  {
    hide Fatal;
    assert (ops + [op])[|ops|] == op;
    assert forall i :: 0 <= i < |ops| ==> (ops + [op])[i] == ops[i];
  }

  const LONGEST_COMMAND := DATAGRAM_LIMIT - |EXEC_PREFIX|
  const LONGEST_TARGET := DATAGRAM_LIMIT - |COPY_PREFIX|

  /** A typed command with more spaces than the table has room for, short enough to be
      sent, or a typed copy with a target too long to be sent. */
  predicate LineFatal(line: string)
    requires line != ""
  {
    var text := line[..|line| - 1];
    || (text != "" && text[0] != '@' && Spaces(text[1..]) > MOST_SPACES && |text| <= LONGEST_COMMAND)
    || (Typed(line).Copy? && |Typed(line).target| > LONGEST_TARGET)
  }

  /** The condition on the typed line under which its request is fatal. */
  lemma FatalAsTyped(line: string)
    requires line != ""
    ensures var r := Typed(line);
            LineFatal(line) <==> (r.Exec? && Fatal(Ran(r.text)))
                                 || (r.Copy? && forall bytes :: Fatal(Stored(r.target, bytes)))
    ensures var r := Typed(line); r.Copy? ==> forall bytes :: Fatal(Stored(r.target, bytes)) <==> LineFatal(line)
  {
    hide Overruns, InputOf, Spaces;
    var text := line[..|line| - 1];
    if text == "" || text[0] != '@' {
      var sent := if ' ' in text then text else text + " ";
      ExecParts(text);
      OverrunsIff(sent);
      if ' ' !in text {
        FewSpaces(text);
      }
    } else {
      AtSignParts(text);
      if Typed(line).Copy? {
        assert Fatal(Stored(Typed(line).target, "")) <==> LineFatal(line);
      }
    }
  }

  lemma FewSpaces(text: string)
    requires ' ' !in text
    ensures text != "" ==> Spaces(text[1..]) == 0
    ensures Spaces((text + " ")[1..]) <= 1
  {
    if text != "" {
      NoSpaces(text[1..]);
      SpacesAdd(text[1..], " ");
      assert (text + " ")[1..] == text[1..] + " ";
      OneSpace();
    } else {
      assert (text + " ")[1..] == "";
    }
  }

  predicate SomeLineFatal(events: seq<Event>) {
    exists i :: 0 <= i < |events| && events[i].Ask? && events[i].line != "" && LineFatal(events[i].line)
  }

  lemma {:induction false} AskedAsTyped(w: World, files: map<string, string>, events: seq<Event>)
    ensures var r := Run(w, files, events); r.Some? ==> (SomeFatal(r.value.asked) <==> SomeLineFatal(events))
  {
    hide Fatal, Typed, LineFatal;
    if events != [] {
      var n := |events| - 1;
      var before, e := events[..n], events[n];
      AskedAsTyped(w, files, before);
      assert events == before + [e];
      var r := Run(w, files, before);
      if r.Some? && Enabled(w, r.value, e) {
        AskedStep(w, r.value, e);
      }
    }
  }

  lemma AskedStep(w: World, s: Sys, e: Event)
    requires Enabled(w, s, e)
    ensures SomeFatal(After(w, s, e).asked) <==> SomeFatal(s.asked) || (e.Ask? && LineFatal(e.line))
  {
    hide Fatal, Typed, AfterTake, LineFatal;
    var t := After(w, s, e);
    if e.Ask? {
      FatalAsTyped(e.line);
    }
    if t.asked != s.asked {
      FatalSnoc(s.asked, t.asked[|s.asked|]);
      assert t.asked == s.asked + [t.asked[|s.asked|]];
    }
  }

  /** The exact condition on what is typed: the server crashes if and only if some line typed
      was a command of at most 65504 characters with more than 98 spaces behind the first
      one, or a copy to a target of more than 65498 characters, and its datagram was taken. */
  lemma CrashIffTyped(w: World, files: map<string, string>, events: seq<Event>)
    ensures var r := Run(w, files, events); r.Some? ==>
              (r.value.server == ServerCrashed <==> SomeLineFatal(events) && CommandTaken(r.value))
  {
    hide Run, SomeFatal, SomeLineFatal;
    NeverMistaken(w, files, events);
    AskedAsTyped(w, files, events);
  }

  /** At every moment the requests carried out are the requests made, up to the last one. */
  lemma DoneIsPrefix(w: World, files: map<string, string>, events: seq<Event>)
    ensures var r := Run(w, files, events); r.Some? ==>
              Ops(r.value.done) == r.value.asked
              || (r.value.asked != [] && Ops(r.value.done) == r.value.asked[..|r.value.asked| - 1])
  {
    hide Run;
    RunInv(w, files, events);
  }

  // ---------------------------------------------------------------- when it goes on

  /** Something other than typing can happen. */
  predicate Moving(w: World, s: Sys) {
    || s.client.SendingSize? || s.client.SendingText?
    || Enabled(w, s, Hear) || Enabled(w, s, Take(NotStarted))
  }

  /** The client waits for a command that the server has just taken and that overran the
      pointer table, could not be started, never ends or fills the pipe, or printed more
      than a datagram holds. */
  predicate Silenced(s: Sys, e: Event) {
    && s.client.Waiting? && s.client.op.Ran?
    && e.Take? && (Overruns(s.client.op.command) || !Answers(e.outcome))
  }

  /** When the session stops making progress: a waiting client can never go on if and only
      if the last thing that happened is that the server took its command and the command
      fails in one of these ways, or a datagram of its request did not fit and those that
      did are taken, or the server has crashed. Then no event is possible any more. */
  lemma StuckIff(w: World, files: map<string, string>, events: seq<Event>)
    ensures var r := Run(w, files, events); r.Some? && r.value.client.Waiting? ==>
              var s := r.value;
              && (!Moving(w, s) <==>
                    || (events != [] && Silenced(s, events[|events| - 1]))
                    || (!Whole(s.client.op) && (s.up == [] || s.server == ServerCrashed)))
              && (!Moving(w, s) ==> forall e :: !Enabled(w, s, e))
  {
    hide InStep, Enabled, After, FilesInv, Whole;
    var r := Run(w, files, events);
    if r.Some? && r.value.client.Waiting? {
      var before := events[..|events| - 1];
      RunInv(w, files, before);
      StuckStep(w, Run(w, files, before).value, events[|events| - 1]);
      if !Moving(w, r.value) {
        NothingPossible(w, r.value);
      }
    }
  }

  lemma NothingPossible(w: World, s: Sys)
    requires s.client.Waiting? && !Moving(w, s)
    ensures forall e :: !Enabled(w, s, e)
  {
  }

  lemma StuckStep(w: World, s: Sys, e: Event)
    requires InStep(s) && DoneFits(s) && Enabled(w, s, e)
    ensures var t := After(w, s, e); t.client.Waiting? ==>
              (!Moving(w, t) <==> Silenced(t, e) || (!Whole(t.client.op) && (t.up == [] || t.server == ServerCrashed)))
  {
    InStepKept(w, s, e);
    FitsKept(w, s, e);
    var t := After(w, s, e);
    hide InStep, DoneFits, Moving, Enabled, Whole;
    match t.client {
      case Waiting(Stored(target, content)) => StuckCopy(w, t, target, content);
      case Waiting(Ran(text)) => StuckCommand(w, s, e, text);
      case _ =>
    }
  }

  /** What is answered was whole. */
  lemma AnsweredIsWhole(s: Sys, op: Op)
    requires WaitingInv(s, op) && DoneFits(s) && s.asked == Ops(s.done)
    ensures Whole(op)
  {
    hide Overruns, CopyStage, Pending, Silent, Whole;
    assert Fine(OpOf(s.done[|s.done| - 1]));
  }

  lemma StuckCopy(w: World, s: Sys, target: string, content: string)
    requires s.client == Waiting(Stored(target, content)) && InStep(s) && DoneFits(s)
    ensures !Moving(w, s) <==> !Whole(s.client.op) && (s.up == [] || s.server == ServerCrashed)
  {
    hide Decimal, Atoi, TextOf, Ops, DoneFits;
    if s.down != [] {
      AnsweredIsWhole(s, s.client.op);
    }
  }

  lemma StuckCommand(w: World, s: Sys, e: Event, text: string)
    requires InStep(s) && DoneFits(s) && Enabled(w, s, e) && After(w, s, e).client == Waiting(Ran(text))
    ensures var t := After(w, s, e);
            !Moving(w, t) <==> Silenced(t, e) || (!Whole(Ran(text)) && (t.up == [] || t.server == ServerCrashed))
  {
    hide Overruns, AfterTake, RequestOf, InputOf, Answers, Ops, DoneFits, CopyStage;
    if e.Take? {
      CommandTakeStep(w, s, text, e.outcome);
    }
  }

  /** What can still be sent, taken and heard before something has to be typed. */
  function Budget(s: Sys): nat {
    3 * (if s.client.SendingSize? then 2 else if s.client.SendingText? then 1 else 0) + 2 * |s.up| + |s.down|
  }

  lemma BudgetShrinks(w: World, s: Sys, e: Event)
    requires Enabled(w, s, e) && !e.Ask?
    ensures Budget(After(w, s, e)) < Budget(s)
  {
    hide AfterTake, Decimal;
  }

  /** Between two lines typed not much can happen, and the request made stays the last. */
  lemma {:induction false} BetweenLines(w: World, files: map<string, string>, start: seq<Event>, after: seq<Event>)
    requires forall i :: 0 <= i < |after| ==> !after[i].Ask?
    requires Run(w, files, start + after).Some?
    ensures Run(w, files, start).Some?
    ensures var s, t := Run(w, files, start).value, Run(w, files, start + after).value;
            && t.asked == s.asked
            && |after| + Budget(t) <= Budget(s)
            && (t.client.Left? ==> s.client.Left?) && (t.client.ClientCrashed? ==> s.client.ClientCrashed?)
  {
    hide AfterTake, Typed, Budget, Decimal;
    if after == [] {
      assert start + after == start;
    } else {
      var init := after[..|after| - 1];
      assert (start + after)[..|start + after| - 1] == start + init;
      BetweenLines(w, files, start, init);
      BudgetShrinks(w, Run(w, files, start + init).value, after[|after| - 1]);
    }
  }

  function CopyCommand(source: string, target: string): string {
    "@copy_to " + source + " " + target + "\n"
  }

  /** The same file, or none, under a path in both. */
  predicate SameAt(a: map<string, string>, b: map<string, string>, path: string) {
    (path in a <==> path in b) && (path in a ==> a[path] == b[path])
  }

  /** Writing changes the one path, if it opens. */
  lemma WriteChanges(w: World, files: map<string, string>, path: string, bytes: string)
    ensures var t := Write(w, files, path, bytes);
            && (path != "" && path !in w.denied ==> path in t && t[path] == bytes)
            && (forall p :: p != path || path == "" || path in w.denied ==> SameAt(t, files, p))
  {
  }

  /** A program's changes: what it has written is there, what else it has removed is not,
      and the rest is as before. */
  lemma ProgramChanges(files: map<string, string>, removed: set<string>, written: map<string, string>, p: string)
    ensures var t := Changed(files, removed, written);
            && (p in written ==> p in t && t[p] == written[p])
            && (p !in written && p in removed ==> p !in t)
            && (p !in written && p !in removed ==> SameAt(t, files, p))
  {
  }

  /** What is carried out stays on record. */
  lemma DoneGrows(w: World, s: Sys, e: Event)
    requires Enabled(w, s, e)
    ensures s.done <= After(w, s, e).done
  {
    hide Parse, Atoi, TextOf, Received, Write, RequestOf, InputOf, Overruns, Decimal;
  }

  lemma {:induction false} DoneSince(w: World, files: map<string, string>, start: seq<Event>, after: seq<Event>)
    requires Run(w, files, start + after).Some?
    ensures Run(w, files, start).Some?
    ensures Run(w, files, start).value.done <= Run(w, files, start + after).value.done
  {
    hide AfterTake, Typed, Enabled, After;
    if after == [] {
      assert start + after == start;
    } else {
      var init := after[..|after| - 1];
      assert (start + after)[..|start + after| - 1] == start + init;
      DoneSince(w, files, start, init);
      DoneGrows(w, Run(w, files, start + init).value, after[|after| - 1]);
    }
  }

  /** What a copy under way has done to the files since its line was typed. */
  lemma CopySince(w: World, files: map<string, string>, s0: Sys, s: Sys, target: string, content: string)
    requires s0.client.AtPrompt? && InStep(s0) && FilesInv(w, files, s0) && FilesInv(w, files, s)
    requires s0.done <= s.done && s.asked == s0.asked + [Stored(target, content)]
    ensures Ops(s.done) == s.asked && s.server == Idle ==> s.files == Write(w, s0.files, target, content)
    ensures Ops(s.done) == s0.asked && s.server.NeedText? && s.server.path == target ==>
              s.files == Write(w, s0.files, target, "")
    ensures Ops(s.done) == s0.asked && s.server == ServerCrashed ==> s.files == s0.files
  {
    hide Write;
    if Ops(s.done) == s.asked {
      var d := s.done[|s0.done|];
      assert OpOf(d) == Ops(s.done)[|s0.done|] == Stored(target, content);
      assert s.done == s0.done + [d];
      ReplayOne(w, files, s0.done, d);
    } else if Ops(s.done) == s0.asked {
      assert |s.done| == |s0.done|;
      assert s.done == s0.done;
    }
  }

  /** File copy, from the prompt line to the server's disk. After `@copy_to source target`
      is typed, for a source without a space and any target that the server can open
      (spaces allowed), the next prompt finds exactly the client's bytes under that target,
      or an empty file if the client has none; and every other path as it was before. */
  lemma CopyIsExact(w: World, files: map<string, string>, before: seq<Event>, source: string, target: string,
                    after: seq<Event>)
    requires ' ' !in source && target != "" && target !in w.denied
    requires forall i :: 0 <= i < |after| ==> !after[i].Ask?
    requires var r := Run(w, files, before + [Ask(CopyCommand(source, target))] + after);
             r.Some? && r.value.client.AtPrompt?
    ensures Run(w, files, before).Some?
    ensures var s0 := Run(w, files, before).value;
            var s := Run(w, files, before + [Ask(CopyCommand(source, target))] + after).value;
            && s.asked != [] && s.asked[|s.asked| - 1] == Stored(target, Content(w, source))
            && target in s.files && s.files[target] == (if source in w.local then w.local[source] else "")
            && (forall p :: p != target ==> SameAt(s.files, s0.files, p))
  {
    hide Typed, InStep, AfterTake, FilesInv, DoneFits, Write;
    var line := CopyCommand(source, target);
    var start := before + [Ask(line)];
    CopyStarted(w, files, before, source, target, after);
    PromptMeansDone(w, files, start + after);
    RunInv(w, files, before);
    RunInv(w, files, start + after);
    var s0, s := Run(w, files, before).value, Run(w, files, start + after).value;
    CopySince(w, files, s0, s, target, Content(w, source));
    WriteChanges(w, s0.files, target, Content(w, source));
  }

  /** What follows a typed copy belongs to it. */
  lemma CopyStarted(w: World, files: map<string, string>, before: seq<Event>, source: string, target: string,
                    after: seq<Event>)
    requires ' ' !in source
    requires forall i :: 0 <= i < |after| ==> !after[i].Ask?
    requires Run(w, files, before + [Ask(CopyCommand(source, target))] + after).Some?
    ensures Run(w, files, before).Some? && Run(w, files, before).value.client.AtPrompt?
    ensures var s0 := Run(w, files, before).value;
            var s := Run(w, files, before + [Ask(CopyCommand(source, target))] + after).value;
            && s.asked == s0.asked + [Stored(target, Content(w, source))] && s0.done <= s.done
            && |after| <= 8 && !s.client.Left? && !s.client.ClientCrashed?
  {
    hide Typed, InStep, AfterTake, FilesInv, DoneFits, Moving;
    var line := CopyCommand(source, target);
    var start := before + [Ask(line)];
    CopyLine(source, target);
    assert start[..|start| - 1] == before;
    BetweenLines(w, files, start, after);
    DoneSince(w, files, start, after);
    DoneSince(w, files, before, [Ask(line)]);
    RunInv(w, files, before);
    CopyAsked(w, Run(w, files, before).value, line);
  }

  /** Nothing but typing is possible. */
  predicate Settled(w: World, s: Sys) { !Moving(w, s) }

  /** When a copy completes. After `@copy_to source target` is typed, for a source without a
      space and a target that the server can open, at most 8 events later nothing but typing
      is possible; and then, if the first datagram fits, the client is back at its prompt and
      the target holds its bytes if and only if these fit into one datagram, while otherwise
      the target is left empty. If not even the first datagram fits, the server has crashed.
      Every other path, and in the last case the target, too, is as it was before the line. */
  lemma CopyCompletesIff(w: World, files: map<string, string>, before: seq<Event>, source: string, target: string,
                         after: seq<Event>)
    requires ' ' !in source && target != "" && target !in w.denied
    requires forall i :: 0 <= i < |after| ==> !after[i].Ask?
    requires Run(w, files, before + [Ask(CopyCommand(source, target))] + after).Some?
    ensures |after| <= 8 && Run(w, files, before).Some?
    ensures var s0 := Run(w, files, before).value;
            var s := Run(w, files, before + [Ask(CopyCommand(source, target))] + after).value;
            var content := if source in w.local then w.local[source] else "";
            && s.asked != [] && s.asked[|s.asked| - 1] == Stored(target, content)
            && (Settled(w, s) ==>
              && (forall p :: p != target ==> SameAt(s.files, s0.files, p))
              && if |target| <= 65498 then
                   && (s.client.AtPrompt? <==> |content| <= 65507)
                   && target in s.files && s.files[target] == (if |content| <= 65507 then content else "")
                 else
                   !s.client.AtPrompt? && s.server == ServerCrashed && s.files == s0.files)
  {
    hide Typed, InStep, AfterTake, FilesInv, DoneFits, Moving, Write;
    var start := before + [Ask(CopyCommand(source, target))];
    var content := Content(w, source);
    CopyStarted(w, files, before, source, target, after);
    RunInv(w, files, before);
    RunInv(w, files, start + after);
    var s0, s := Run(w, files, before).value, Run(w, files, start + after).value;
    if !Moving(w, s) {
      SettledCopy(w, s0, s, target, content);
      CopySince(w, files, s0, s, target, content);
      WriteChanges(w, s0.files, target, content);
      WriteChanges(w, s0.files, target, "");
    }
  }

  lemma CopyAsked(w: World, s: Sys, line: string)
    requires InStep(s) && Enabled(w, s, Ask(line)) && Typed(line).Copy?
    ensures var t := After(w, s, Ask(line));
            && t.client.SendingSize? && Budget(t) <= 8
            && t.asked == s.asked + [Stored(Typed(line).target, Content(w, Typed(line).source))]
  {
    hide Typed;
  }

  lemma LastIsFine(s: Sys, op: Op)
    requires DoneFits(s) && s.asked == Ops(s.done) && s.asked != [] && s.asked[|s.asked| - 1] == op
    ensures Fine(op)
  {
    hide Fine;
    assert OpOf(s.done[|s.done| - 1]) == op;
  }

  /** How a copy under way ends. */
  lemma SettledCopy(w: World, s0: Sys, s: Sys, target: string, content: string)
    requires InStep(s) && DoneFits(s) && s.asked == s0.asked + [Stored(target, content)]
    requires !s.client.Left? && !s.client.ClientCrashed? && !Moving(w, s)
    ensures if OneDatagram(COPY_PREFIX + target) then
              if OneDatagram(content) then s.client.AtPrompt? && s.server == Idle && Ops(s.done) == s.asked
              else !s.client.AtPrompt? && s.server == NeedText(target, SizeRead(content)) && Ops(s.done) == s0.asked
            else
              !s.client.AtPrompt? && s.server == ServerCrashed && Ops(s.done) == s0.asked
  {
    hide SizeRead, Decimal, Ops;
    if s.client.AtPrompt? {
      LastIsFine(s, Stored(target, content));
    } else {
      StuckCopy(w, s, target, content);
      assert s.asked[..|s.asked| - 1] == s0.asked;
      assert (Ops(s.done) + [Stored(target, content)])[..|s.done|] == Ops(s.done);
    }
  }

  lemma CopyLine(source: string, target: string)
    requires ' ' !in source
    ensures Typed(CopyCommand(source, target)) == Copy(source, target)
  {
    hide IndexOf;
    var line := CopyCommand(source, target);
    var text := line[..|line| - 1];
    var arg := source + " " + target;
    var name := "@copy_to";
    assert text == name + " " + arg;
    assert ' ' !in name;
    CutAtSpace(text, name, arg);
    CutAtSpace(arg, source, target);
  }

  lemma CutAtSpace(text: string, head: string, tail: string)
    requires text == head + " " + tail && ' ' !in head
    ensures var i := IndexOf(text, ' ', 0); i < |text| && text[..i] == head && text[i + 1..] == tail
  {
    hide IndexOf;
    assert text[0..] == head + [' '] + tail;
    FieldIn(text, 0, head, ' ', tail);
    assert text[..|head|] == head;
  }

  /** The part of a typed line before its first space, without the line's last character. */
  function FirstWord(line: string): string
    requires line != ""
  {
    var text := line[..|line| - 1];
    text[..IndexOf(text, ' ', 0)]
  }

  /** Which request a line makes: it depends on the word before its first space alone
      whether it is an exit, a copy in either direction, an unknown command, or a command
      to run, and on what follows whether a copy has its two paths. */
  lemma RequestsAsTyped(line: string, word: string, rest: string)
    requires ' ' !in word
    requires line != "" && (line[..|line| - 1] == word + " " + rest || (line[..|line| - 1] == word && rest == ""))
    ensures var r := Typed(line);
            && FirstWord(line) == word
            && (r.Exit? <==> word == "@exit")
            && (r.CopyBack? <==> word == "@copy_from")
            && (r.CopyNoSpace? <==> word == "@copy_to" && ' ' !in rest)
            && (r.Copy? <==> word == "@copy_to" && ' ' in rest)
            && (r.Copy? ==> r.source + " " + r.target == rest && ' ' !in r.source)
            && (r.Unknown? <==> word != "" && word[0] == '@' && word != "@exit" && word != "@copy_to"
                                && word != "@copy_from")
            && (r.Exec? <==> word == "" || word[0] != '@')
            && (r.Exec? ==> r.text == word + " " + rest)
  {
    hide IndexOf;
    var text := line[..|line| - 1];
    if text == word {
      IndexOfFirst(text, ' ', 0, |text|);
    }
    if text == word + " " + rest {
      CutAtSpace(text, word, rest);
    }
    SpaceSplits(rest);
    var i := IndexOf(rest, ' ', 0);
    IndexOfFirst(rest, ' ', 0, i);
  }

  /** A command line reaches the server's splitter as it was typed, with one space added
      when it holds none; the argument vector says it again. */
  lemma ExecLine(text: string)
    requires text != "" && text[0] != '@' && text[0] != ' '
    ensures var sent := if ' ' in text then text else text + " ";
            && Typed(text + "\n") == Exec(sent)
            && Join(Words(sent)) == sent
            && forall k :: 0 <= k < |Words(sent)| ==> ' ' !in Words(sent)[k]
  {
    var line := text + "\n";
    assert line[..|line| - 1] == text;
    ExecParts(text);
    WordsOf(if ' ' in text then text else text + " ");
  }

  lemma ExecParts(text: string)
    requires text == "" || text[0] != '@'
    ensures RequestOf(InputOf(text)) == Exec(if ' ' in text then text else text + " ")
  {
    hide InputOf, IndexOf;
    InputParts(text);
    var input := InputOf(text);
    assert input.cmd != "" ==> input.cmd[0] == text[0] by {
      if ' ' in text && input.cmd != "" {
        assert (input.cmd + " " + input.arg)[0] == input.cmd[0];
      }
    }
    assert input.arg == "" && ' ' !in text ==> input.cmd + " " + input.arg == text + " ";
  }

  lemma AtSignParts(text: string)
    requires text != "" && text[0] == '@'
    ensures !RequestOf(InputOf(text)).Exec?
  {
    hide InputOf, IndexOf;
    InputParts(text);
    var input := InputOf(text);
    assert input.cmd != "" && input.cmd[0] == '@' by {
      if ' ' in text {
        assert (input.cmd + " " + input.arg)[0] == if input.cmd == "" then ' ' else input.cmd[0];
      }
    }
  }
}
