/** The key exchange as two processes joined by a datagram or stream channel, under
    every schedule of their steps.
 */
module Handshake {
  import opened CText
  import opened ModularPower
  import opened KeyDerivation
  import opened KeyMessages

  datatype Transport = Udp | Tcp

  /** One direction of the connection. A receive takes one datagram, or whatever the
      stream holds; both are limited by the size of the receive buffer. */
  datatype Wire = Packets(queue: seq<string>) | Stream(bytes: string)

  function Send(w: Wire, message: string): Wire {
    match w
    case Packets(queue) => Packets(queue + [message])
    case Stream(bytes) => Stream(bytes + message)
  }

  function Receive(w: Wire): Option<(string, Wire)> {
    match w
    case Packets(queue) =>
      if queue == [] then None else Some((Clipped(queue[0]), Packets(queue[1..])))
    case Stream(bytes) =>
      if bytes == "" then None else Some((Clipped(bytes), Stream(bytes[|Clipped(bytes)|..])))
  }

  function Clipped(message: string): (r: string)
    ensures |r| <= |message|
  {
    if |message| <= MAX_COMMAND_LENGTH then message else message[..MAX_COMMAND_LENGTH]
  }

  datatype Secrets = Secrets(a1: nat, a2: nat, b1: nat, b2: nat)

  datatype Keys = Keys(agreed: Agreed, key: string, iv: string)

  datatype Server = Listening | Connected | Greeted | ServerReady(keys: Keys) | ServerDead
  datatype Client = Starting | Hailed | Answering(answer: string, agreed: Agreed)
                  | ClientReady(keys: Keys) | ClientDead

  datatype Sys = Sys(server: Server, client: Client, up: Wire, down: Wire, dialled: bool)

  const HEY := "@Hey admin!\n"

  function EmptyWire(t: Transport): Wire {
    match t case Udp => Packets([]) case Tcp => Stream("")
  }

  function Start(t: Transport): Sys {
    Sys(Listening, Starting, EmptyWire(t), EmptyWire(t), false)
  }

  function KeysFrom(agreed: Agreed): Keys
    requires agreed.k1 < WORD && agreed.k2 < WORD
  {
    WordsFit(agreed.k1, agreed.k2);
    Keys(agreed, KeyBuffer(agreed.k1, agreed.k2), IvBuffer(agreed.k1, agreed.k2))
  }

  /** The server's next step; the state is unchanged while it is blocked in a receive. */
  function ServerStep(t: Transport, x: Secrets, s: Sys): Sys {
    match s.server
    case Listening =>
      (match t
       case Tcp => if s.dialled then s.(server := Connected) else s
       case Udp => match Receive(s.up)
         case None => s
         case Some((_, rest)) => s.(server := Connected, up := rest))
    case Connected =>
      var pub1 := WordSpeed(PUBLIC_KEY_G, x.a1, PUBLIC_KEY_P).value;
      var pub2 := WordSpeed(PUBLIC_KEY_G, x.a2, PUBLIC_KEY_P).value;
      s.(server := Greeted, down := Send(s.down, Greeting(PUBLIC_KEY_P, PUBLIC_KEY_G, pub1, pub2)))
    case Greeted =>
      (match Receive(s.up)
       case None => s
       case Some((m, rest)) =>
         if |m| >= MAX_COMMAND_LENGTH then s.(server := ServerDead, up := rest)
         else match ServerComputes(Padded(m, MAX_COMMAND_LENGTH), x.a1, x.a2)
           case None => s.(server := ServerDead, up := rest)
           case Some(agreed) => s.(server := ServerReady(KeysFrom(agreed)), up := rest))
    case ServerReady(_) => s
    case ServerDead => s
  }

  function ClientStep(t: Transport, x: Secrets, s: Sys): Sys {
    match s.client
    case Starting =>
      (match t
       case Tcp => s.(client := Hailed, dialled := true)
       case Udp => s.(client := Hailed, up := Send(s.up, HEY)))
    case Hailed =>
      (match Receive(s.down)
       case None => s
       case Some((m, rest)) =>
         if |m| >= MAX_COMMAND_LENGTH then s.(client := ClientDead, down := rest)
         else match ClientComputes(Padded(m, MAX_COMMAND_LENGTH), x.b1, x.b2)
           case None => s.(client := ClientDead, down := rest)
           case Some((answer, agreed)) => s.(client := Answering(answer, agreed), down := rest))
    case Answering(answer, agreed) =>
      if agreed.k1 >= WORD || agreed.k2 >= WORD then s  // not a pair of size_t values
      else s.(client := ClientReady(KeysFrom(agreed)), up := Send(s.up, answer))
    case ClientReady(_) => s
    case ClientDead => s
  }

  datatype Actor = TheServer | TheClient

  function Step(t: Transport, x: Secrets, s: Sys, who: Actor): Sys {
    match who
    case TheServer => ServerStep(t, x, s)
    case TheClient => ClientStep(t, x, s)
  }

  /** The state after giving the two processes turns in any order whatever. */
  function Run(t: Transport, x: Secrets, schedule: seq<Actor>): Sys {
    if schedule == [] then Start(t)
    else Step(t, x, Run(t, x, schedule[..|schedule| - 1]), schedule[|schedule| - 1])
  }

  // ---------------------------------------------------------------- the only states there are

  const LAST_STAGE: nat := 6

  function Outcome(x: Secrets): Keys {
    KeysFrom(Shared(x.a1, x.a2, x.b1, x.b2))
  }

  /** The seven states of an honest exchange, written out. */
  function Stage(t: Transport, x: Secrets, k: nat): Sys
    requires k <= LAST_STAGE
  {
    var none := EmptyWire(t);
    var dialled := t == Tcp;
    var greeting := Greeting(PUBLIC_KEY_P, PUBLIC_KEY_G, Public(x.a1), Public(x.a2));
    var reply := Reply(Public(x.b1), Public(x.b2));
    match k
    case 0 => Sys(Listening, Starting, none, none, false)
    case 1 => Sys(Listening, Hailed, if t == Udp then Packets([HEY]) else none, none, dialled)
    case 2 => Sys(Connected, Hailed, none, none, dialled)
    case 3 => Sys(Greeted, Hailed, none, Send(none, greeting), dialled)
    case 4 => Sys(Greeted, Answering(reply, Outcome(x).agreed), none, none, dialled)
    case 5 => Sys(Greeted, ClientReady(Outcome(x)), Send(none, reply), none, dialled)
    case _ => Sys(ServerReady(Outcome(x)), ClientReady(Outcome(x)), none, none, dialled)
  }

  /** Who can move in each stage; the other one is blocked or finished. */
  function Mover(k: nat): Actor {
    if k == 1 || k == 2 || k == 5 then TheServer else TheClient
  }

  lemma SendThenReceive(t: Transport, message: string)
    requires 0 < |message| < MAX_COMMAND_LENGTH
    ensures Receive(Send(EmptyWire(t), message)) == Some((message, EmptyWire(t)))
    ensures Receive(EmptyWire(t)) == None
  {
    assert "" + message == message;
    assert message[|message|..] == "";
    assert ([] + [message])[1..] == [];
  }

  /** A receive takes a datagram, or all that the stream holds, cut to the 65536 characters
      of the buffer; the rest of a datagram is lost, the rest of a stream stays. */
  lemma ReceiveIs(w: Wire)
    ensures Receive(w).None? <==> w == Packets([]) || w == Stream("")
    ensures var r := Receive(w); r.Some? ==>
              var (m, rest) := r.value;
              && |m| <= 65536
              && (w.Stream? ==> rest.Stream? && m + rest.bytes == w.bytes && (|m| < 65536 ==> rest.bytes == ""))
              && (w.Packets? ==> rest == Packets(w.queue[1..]) && m <= w.queue[0]
                                 && (|m| < 65536 ==> m == w.queue[0]))
  {
  }

  /** What a side does with the message it waits for, whatever that is: it goes on if and
      only if the message leaves room for its terminator and its code comes to a result. */
  lemma MessageTaken(t: Transport, x: Secrets, s: Sys, m: string, rest: Wire)
    ensures s.server == Greeted && Receive(s.up) == Some((m, rest)) ==>
              var u := ServerStep(t, x, s);
              && u.up == rest && u.client == s.client
              && (u.server == ServerDead || u.server.ServerReady?)
              && (u.server.ServerReady? <==>
                    |m| < 65536 && ServerComputes(Padded(m, 65536), x.a1, x.a2).Some?)
    ensures s.client == Hailed && Receive(s.down) == Some((m, rest)) ==>
              var u := ClientStep(t, x, s);
              && u.down == rest && u.server == s.server
              && (u.client == ClientDead || u.client.Answering?)
              && (u.client.Answering? <==>
                    |m| < 65536 && ClientComputes(Padded(m, 65536), x.b1, x.b2).Some?)
  {
    hide ServerComputes, ClientComputes, Padded, KeysFrom, Receive;
  }

  lemma StageStep(t: Transport, x: Secrets, k: nat, who: Actor)
    requires k <= LAST_STAGE
    ensures Step(t, x, Stage(t, x, k), who)
         == Stage(t, x, if k < LAST_STAGE && who == Mover(k) then k + 1 else k)
  {
    match who
    case TheServer => ServerStageStep(t, x, k);
    case TheClient => ClientStageStep(t, x, k);
  }

  lemma ServerStageStep(t: Transport, x: Secrets, k: nat)
    requires k <= LAST_STAGE
    ensures ServerStep(t, x, Stage(t, x, k)) == Stage(t, x, if Mover(k) == TheServer then k + 1 else k)
  {
    hide ClientComputes, ServerComputes, KeyBuffer, IvBuffer, Padded, Power, Speed, Greeting, Reply;
    if k == 2 {
      HonestPower(PUBLIC_KEY_G, x.a1);
      HonestPower(PUBLIC_KEY_G, x.a2);
    } else if k == 5 {
      ServerTakesReply(t, x);
    } else {
      SendThenReceive(t, HEY);
    }
  }

  lemma ServerTakesReply(t: Transport, x: Secrets)
    ensures ServerStep(t, x, Stage(t, x, 5)) == Stage(t, x, 6)
  {
    hide ClientComputes, ServerComputes, KeyBuffer, IvBuffer, Padded, Power, Speed, Greeting, Reply;
    var reply := Reply(Public(x.b1), Public(x.b2));
    HonestServer(x.a1, x.a2, x.b1, x.b2);
    SendThenReceive(t, reply);
    ServerReceives(t, x, Stage(t, x, 5), reply, EmptyWire(t), Outcome(x).agreed);
  }

  lemma ServerReceives(t: Transport, x: Secrets, s: Sys, m: string, rest: Wire, agreed: Agreed)
    requires s.server == Greeted && Receive(s.up) == Some((m, rest)) && |m| < MAX_COMMAND_LENGTH
    requires ServerComputes(Padded(m, MAX_COMMAND_LENGTH), x.a1, x.a2) == Some(agreed)
    ensures agreed.k1 < WORD && agreed.k2 < WORD
    ensures ServerStep(t, x, s) == s.(server := ServerReady(KeysFrom(agreed)), up := rest)
  {
  }

  lemma ClientStageStep(t: Transport, x: Secrets, k: nat)
    requires k <= LAST_STAGE
    ensures ClientStep(t, x, Stage(t, x, k))
         == Stage(t, x, if k < LAST_STAGE && Mover(k) == TheClient then k + 1 else k)
  {
    hide ClientComputes, ServerComputes, KeyBuffer, IvBuffer, Padded, Power, Speed, Greeting, Reply;
    if k == 3 {
      ClientTakesGreeting(t, x);
    } else {
      SendThenReceive(t, HEY);
    }
  }

  lemma ClientTakesGreeting(t: Transport, x: Secrets)
    ensures ClientStep(t, x, Stage(t, x, 3)) == Stage(t, x, 4)
  {
    hide ClientComputes, ServerComputes, KeyBuffer, IvBuffer, Padded, Power, Speed, Greeting, Reply;
    var greeting := Greeting(PUBLIC_KEY_P, PUBLIC_KEY_G, Public(x.a1), Public(x.a2));
    var reply := Reply(Public(x.b1), Public(x.b2));
    HonestClient(x.a1, x.a2, x.b1, x.b2);
    SendThenReceive(t, greeting);
    ClientReceives(t, x, Stage(t, x, 3), greeting, EmptyWire(t), reply, Outcome(x).agreed);
  }

  lemma ClientReceives(t: Transport, x: Secrets, s: Sys, m: string, rest: Wire, answer: string, agreed: Agreed)
    requires s.client == Hailed && Receive(s.down) == Some((m, rest)) && |m| < MAX_COMMAND_LENGTH
    requires ClientComputes(Padded(m, MAX_COMMAND_LENGTH), x.b1, x.b2) == Some((answer, agreed))
    ensures ClientStep(t, x, s) == s.(client := Answering(answer, agreed), down := rest)
  {
  }

  /** How far a schedule has carried the exchange. */
  function Reached(schedule: seq<Actor>): (k: nat)
    ensures k <= LAST_STAGE
  {
    if schedule == [] then 0 else
      var k := Reached(schedule[..|schedule| - 1]);
      if k < LAST_STAGE && schedule[|schedule| - 1] == Mover(k) then k + 1 else k
  }

  lemma {:induction false} RunIsStage(t: Transport, x: Secrets, schedule: seq<Actor>)
    ensures Run(t, x, schedule) == Stage(t, x, Reached(schedule))
  {
    if schedule != [] {
      var before := schedule[..|schedule| - 1];
      RunIsStage(t, x, before);
      StageStep(t, x, Reached(before), schedule[|schedule| - 1]);
    }
  }

  /** Key agreement. For all secrets, over datagrams and over a stream, and under every
      schedule: neither side ever runs into a malformed message, and once both are ready
      they hold the same two numbers, namely g^(a*b) mod P, and byte for byte the same
      key and IV buffers. */
  lemma BothSidesAgree(t: Transport, x: Secrets, schedule: seq<Actor>)
    ensures var s := Run(t, x, schedule);
            && s.server != ServerDead && s.client != ClientDead
            && (s.server.ServerReady? ==> s.client.ClientReady?)
            && (s.server.ServerReady? && s.client.ClientReady? ==>
                  && s.server.keys == s.client.keys
                  && var k1, k2 := Power(7, x.a1 * x.b1) % 20999999, Power(7, x.a2 * x.b2) % 20999999;
                     var u, v := Decimal(k1), Decimal(k2);
                  && s.server.keys.agreed.k1 == k1 && s.server.keys.agreed.k2 == k2
                  && HoldsFirst(s.server.keys.key, u + v + u + v + u + v + u + v, 32)
                  && HoldsFirst(s.server.keys.iv, v + u + v + u + v + u + v + u, 16)
                  && s.up == s.down == EmptyWire(t))
  {
    RunIsStage(t, x, schedule);
    KeysHold(Outcome(x).agreed);
    hide KeysFrom, Decimal, Power, HoldsFirst;
  }

  /** A buffer of 65536 characters with the first `n` of a text, or all of a shorter one,
      and NULs behind. */
  predicate HoldsFirst(buf: string, text: string, n: nat) {
    && |buf| == 65536
    && forall j :: 0 <= j < 65536 ==> buf[j] == if j < n && j < |text| then text[j] else '\0'
  }

  lemma KeysHold(agreed: Agreed)
    requires agreed.k1 < WORD && agreed.k2 < WORD
    ensures var u, v, keys := Decimal(agreed.k1), Decimal(agreed.k2), KeysFrom(agreed);
            && HoldsFirst(keys.key, u + v + u + v + u + v + u + v, 32)
            && HoldsFirst(keys.iv, v + u + v + u + v + u + v + u, 16)
  {
    hide Decimal, KeyBuffer, IvBuffer;
    WordsFit(agreed.k1, agreed.k2);
    FreshBuffers(agreed.k1, agreed.k2);
    PaddedHolds(KeyText(agreed.k1, agreed.k2), KEY_CHARS);
    PaddedHolds(KeyText(agreed.k2, agreed.k1), IV_CHARS);
  }

  lemma PaddedHolds(text: string, n: nat)
    requires n <= MAX_COMMAND_LENGTH
    ensures HoldsFirst(Padded(Retained(text, n), MAX_COMMAND_LENGTH), text, n)
  {
  }

  /** What passes between the two: in every state of an honest exchange at most one message
      is under way, and it is one of the three texts, with the public values in it. */
  lemma MessagesUnderWay(t: Transport, x: Secrets, schedule: seq<Actor>)
    ensures var s := Run(t, x, schedule);
            var greeting := "@You are not alone!:20999999#7#" + Decimal(Power(7, x.a1) % 20999999) + "#"
                            + Decimal(Power(7, x.a2) % 20999999) + "\n";
            var reply := "@Secret info:" + Decimal(Power(7, x.b1) % 20999999) + ":"
                         + Decimal(Power(7, x.b2) % 20999999);
            && (s.down == EmptyWire(t) || (s.down == Send(EmptyWire(t), greeting) && s.up == EmptyWire(t)))
            && (s.up == EmptyWire(t) || s.up == Send(EmptyWire(t), "@Hey admin!\n")
                || s.up == Send(EmptyWire(t), reply))
  {
    RunIsStage(t, x, schedule);
    StageMessages(t, x, Reached(schedule));
    TextsOfStage(x);
    hide Run, Stage, Send, EmptyWire, Decimal, Power;
  }

  lemma StageMessages(t: Transport, x: Secrets, k: nat)
    requires k <= LAST_STAGE
    ensures var s := Stage(t, x, k);
            var greeting := Greeting(PUBLIC_KEY_P, PUBLIC_KEY_G, Public(x.a1), Public(x.a2));
            && (s.down == EmptyWire(t) || (s.down == Send(EmptyWire(t), greeting) && s.up == EmptyWire(t)))
            && (s.up == EmptyWire(t) || s.up == Send(EmptyWire(t), HEY)
                || s.up == Send(EmptyWire(t), Reply(Public(x.b1), Public(x.b2))))
  {
    hide Greeting, Reply, Public, Outcome;
    assert "" + HEY == HEY;
  }

  lemma TextsOfStage(x: Secrets)
    ensures Greeting(PUBLIC_KEY_P, PUBLIC_KEY_G, Public(x.a1), Public(x.a2))
         == "@You are not alone!:20999999#7#" + Decimal(Power(7, x.a1) % 20999999) + "#"
            + Decimal(Power(7, x.a2) % 20999999) + "\n"
    ensures Reply(Public(x.b1), Public(x.b2))
         == "@Secret info:" + Decimal(Power(7, x.b1) % 20999999) + ":" + Decimal(Power(7, x.b2) % 20999999)
  {
    hide Greeting, Reply, Speed, Power, Decimal;
    TextsSent(Public(x.a1), Public(x.a2), Public(x.b1), Public(x.b2));
    PublicIs(x.a1);
    PublicIs(x.a2);
    PublicIs(x.b1);
    PublicIs(x.b2);
  }

  lemma PublicIs(a: nat)
    ensures Public(a) == Power(7, a) % 20999999
  {
    HonestPower(PUBLIC_KEY_G, a);
  }

  /** A schedule in which each of the two gets at least one turn in every round. */
  predicate FairRound(round: seq<Actor>) { TheServer in round && TheClient in round }

  function Flatten(rounds: seq<seq<Actor>>): seq<Actor> {
    if rounds == [] then [] else Flatten(rounds[..|rounds| - 1]) + rounds[|rounds| - 1]
  }

  lemma {:induction false} ReachedGrows(before: seq<Actor>, round: seq<Actor>)
    ensures Reached(before + round) >= Reached(before)
    ensures FairRound(round) && Reached(before) < LAST_STAGE ==> Reached(before + round) > Reached(before)
  {
    if round == [] {
      assert before + round == before;
    } else {
      var init := round[..|round| - 1];
      var all := before + round;
      assert all[..|all| - 1] == before + init;
      ReachedGrows(before, init);
      assert round == init + [round[|round| - 1]];
      if Reached(before + init) == Reached(before) && Reached(before) < LAST_STAGE {
        MoverAbsent(before, init);
      }
    }
  }

  lemma {:induction false} MoverAbsent(before: seq<Actor>, part: seq<Actor>)
    requires Reached(before) < LAST_STAGE && Reached(before + part) == Reached(before)
    ensures Mover(Reached(before)) !in part
  {
    if part != [] {
      var init := part[..|part| - 1];
      var all := before + part;
      assert all[..|all| - 1] == before + init;
      ReachedGrows(before, init);
      MoverAbsent(before, init);
      assert part == init + [part[|part| - 1]];
    }
  }

  /** The exchange never deadlocks: six fair rounds complete it on both sides. */
  lemma {:induction false} SixFairRoundsFinish(t: Transport, x: Secrets, rounds: seq<seq<Actor>>)
    requires |rounds| >= LAST_STAGE && forall i :: 0 <= i < |rounds| ==> FairRound(rounds[i])
    ensures var s := Run(t, x, Flatten(rounds)); s.server.ServerReady? && s.client.ClientReady?
  {
    RoundsReach(rounds);
    RunIsStage(t, x, Flatten(rounds));
  }

  lemma {:induction false} RoundsReach(rounds: seq<seq<Actor>>)
    requires forall i :: 0 <= i < |rounds| ==> FairRound(rounds[i])
    ensures Reached(Flatten(rounds)) >= if |rounds| < LAST_STAGE then |rounds| else LAST_STAGE
  {
    if rounds != [] {
      var init := rounds[..|rounds| - 1];
      RoundsReach(init);
      ReachedGrows(Flatten(init), rounds[|rounds| - 1]);
    }
  }
}
