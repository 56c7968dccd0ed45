/** The admin hand-off: a chain of forked admins, the connection handler that forks
    them and forwards their addresses, and the broadcaster that advertises the newest.
    A transition system over all interleavings, with its inductive invariant.
 */
module Handoff {
  import opened CText
  import opened SignalWords
  import opened PortSearch

  datatype Phase =
    | Searching(tries: nat)         // in the bind loop; `tries` is addition_port
    | Bound                         // port claimed, address not yet published
    | Published                     // waiting for a client
    | Connected                     // client accepted, successor not yet requested
    | Serving                       // successor requested
    | Finished                      // left after serving
    | Failed(published: bool)       // left before a client was accepted

  /** `port` is the number in `bfd->admin.sin_port`; `held` is the port the socket really has. */
  datatype Admin = Admin(phase: Phase, port: word16, held: nat)

  predicate HasPublished(a: Admin) {
    a.phase.Published? || a.phase.Connected? || a.phase.Serving? || a.phase.Finished? || a.phase == Failed(true)
  }

  predicate HasRequested(a: Admin) { a.phase.Serving? || a.phase.Finished? }

  predicate HoldsPort(a: Admin) {
    a.phase.Bound? || a.phase.Published? || a.phase.Connected? || a.phase.Serving?
  }

  /** How SIGUSR1 values wait: all of them in order, or, as Linux treats a standard signal,
      only one at a time per process while later ones are dropped. */
  datatype Delivery = Queued | Merged

  datatype Config = Config(order: ByteOrder, delivery: Delivery)

  /** A waiting SIGUSR1 with its value. Which publication it stems from is history: nothing
      in the signal tells. */
  datatype Signal = Signal(word: word64, number: nat)

  datatype Sys = Sys(
    admins: seq<Admin>,             // in creation order
    foreign: set<nat>,              // ports other programs hold
    request: bool,                  // SIGUSR2 pending at the handler
    forking: bool,                  // the handler is inside New_admin_request
    atHandler: seq<Signal>,         // SIGUSR1 values pending at the handler
    forwarding: Option<Signal>,     // the handler is inside Send_admin_info
    atBroadcaster: seq<Signal>,     // SIGUSR1 values pending at the broadcaster
    admAddr: Address,
    // history
    sent: seq<Signal>,              // published by admins
    applied: seq<Signal>,           // taken over by the broadcaster
    lost: set<nat>,                 // publications dropped on the way
    requests: nat,                  // SIGUSR2 signals sent by admins
    lostRequests: nat)              // SIGUSR2 signals sent while one was pending

  function Initial(foreign: set<nat>): Sys {
    // Wait_connection sends itself the first request
    Sys([], foreign, true, false, [], None, [], Address(0, 0), [], [], {}, 0, 0)
  }

  datatype Event =
    | TakeRequest | Fork
    | TryBind(i: nat, anyPort: nat) | Publish(i: nat) | Accept(i: nat) | Request(i: nat) | Leave(i: nat) | Abort(i: nat)
    | TakeAddress | Forward | Apply
    | Others(foreign: set<nat>)

  predicate Taken(s: Sys, p: nat) {
    p in s.foreign || exists i :: 0 <= i < |s.admins| && HoldsPort(s.admins[i]) && s.admins[i].held == p
  }

  predicate AdminIs(s: Sys, i: nat, phase: Phase) {
    i < |s.admins| && s.admins[i].phase == phase
  }

  predicate Enabled(s: Sys, e: Event) {
    match e
    case TakeRequest => s.request && !s.forking
    case Fork => s.forking
    case TryBind(i, anyPort) =>
      && i < |s.admins| && s.admins[i].phase.Searching?
      && 0 < anyPort < PORTS && !Taken(s, anyPort)
    case Publish(i) => AdminIs(s, i, Bound)
    case Accept(i) => AdminIs(s, i, Published)
    case Request(i) => AdminIs(s, i, Connected)
    case Leave(i) => AdminIs(s, i, Serving)
    // no socket at the very start, or a failing listen or accept
    case Abort(i) => AdminIs(s, i, Searching(1)) || AdminIs(s, i, Published)
    // Send_admin_info cannot start or go on while New_admin_request runs, but the
    // latter may interrupt the former
    case TakeAddress => s.forwarding.None? && !s.forking && s.atHandler != []
    case Forward => s.forwarding.Some? && !s.forking
    case Apply => s.atBroadcaster != []
    case Others(foreign) =>
      forall i :: 0 <= i < |s.admins| && HoldsPort(s.admins[i]) ==> s.admins[i].held !in foreign
  }

  /** `sigqueue` towards a process with `pending` waiting values. */
  function Enqueue(d: Delivery, pending: seq<Signal>, signal: Signal): seq<Signal> {
    if d == Merged && pending != [] then pending else pending + [signal]
  }

  /** The publication that a step drops, if it does: `sigqueue` towards a process with a
      waiting value, in the admin's publication or in the handler's forwarding. */
  function Discarded(c: Config, s: Sys, e: Event): Option<nat> {
    if c.delivery == Queued then None
    else if e.Publish? && s.atHandler != [] then Some(|s.sent|)
    else if e.Forward? && s.forwarding.Some? && s.atBroadcaster != [] then Some(s.forwarding.value.number)
    else None
  }

  predicate Drops(c: Config, s: Sys, e: Event) { Discarded(c, s, e).Some? }

  function LostAfter(c: Config, s: Sys, e: Event): set<nat> {
    if Drops(c, s, e) then s.lost + {Discarded(c, s, e).value} else s.lost
  }

  function WithPhase(s: Sys, i: nat, phase: Phase): Sys
    requires i < |s.admins|
  {
    s.(admins := s.admins[i := s.admins[i].(phase := phase)])
  }

  /** One turn of the bind loop: on success the admin holds a port, on failure it moves on. */
  function AfterTry(s: Sys, i: nat, anyPort: nat): Admin
    requires i < |s.admins| && s.admins[i].phase.Searching?
  {
    var k := s.admins[i].phase.tries;
    var p := Candidate(k);
    if p == 0 then Admin(Bound, 0, anyPort)
    else if Taken(s, p) then s.admins[i].(phase := Searching(k + 1))
    else Admin(Bound, p, p)
  }

  function After(c: Config, s: Sys, e: Event): (s': Sys)
    requires Enabled(s, e)
  {
    match e
    case TakeRequest => s.(request := false, forking := true)
    case Fork => s.(forking := false, admins := s.admins + [Admin(Searching(1), 0, 0)])
    case TryBind(i, anyPort) => s.(admins := s.admins[i := AfterTry(s, i, anyPort)])
    case Publish(i) =>
      var signal := Signal(PackPort(c.order, s.admins[i].port), |s.sent|);
      WithPhase(s, i, Published).(atHandler := Enqueue(c.delivery, s.atHandler, signal),
                                  sent := s.sent + [signal], lost := LostAfter(c, s, e))
    case Accept(i) => WithPhase(s, i, Connected)
    case Request(i) =>
      WithPhase(s, i, Serving).(request := true, requests := s.requests + 1,
                                lostRequests := s.lostRequests + if s.request then 1 else 0)
    case Leave(i) => WithPhase(s, i, Finished)
    case Abort(i) => WithPhase(s, i, Failed(s.admins[i].phase.Published?))
    case TakeAddress => s.(forwarding := Some(s.atHandler[0]), atHandler := s.atHandler[1..])
    case Forward =>
      s.(forwarding := None, atBroadcaster := Enqueue(c.delivery, s.atBroadcaster, s.forwarding.value),
         lost := LostAfter(c, s, e))
    case Apply =>
      s.(atBroadcaster := s.atBroadcaster[1..], applied := s.applied + [s.atBroadcaster[0]],
         admAddr := TranslateSignal(c.order, s.atBroadcaster[0].word))
    case Others(foreign) => s.(foreign := foreign)
  }

  /** The state a run ends in; `None` when some event was not possible where it stands. */
  function Run(c: Config, foreign: set<nat>, events: seq<Event>): Option<Sys> {
    if events == [] then Some(Initial(foreign))
    else match Run(c, foreign, events[..|events| - 1])
      case None => None
      case Some(s) =>
        var e := events[|events| - 1];
        if Enabled(s, e) then Some(After(c, s, e)) else None
  }

  ghost predicate Reachable(c: Config, s: Sys) {
    exists foreign: set<nat>, events: seq<Event> :: Run(c, foreign, events) == Some(s)
  }

  // ---------------------------------------------------------------- the invariant

  function Bit(b: bool): nat { if b then 1 else 0 }

  /** The chain of admins: all but the newest have requested their successor, and the one
      token of the protocol is a pending request, a fork in progress, or the newest admin. */
  predicate ChainInv(s: Sys) {
    && s.lostRequests == 0
    && (forall i :: 0 <= i < |s.admins| - 1 ==> HasRequested(s.admins[i]))
    && s.requests == (if s.admins == [] then 0 else |s.admins| - 1 + Bit(NewestRequested(s)))
    && Bit(s.request) + Bit(s.forking) + |s.admins| == 1 + s.requests
  }

  predicate NewestRequested(s: Sys) {
    s.admins != [] && HasRequested(s.admins[|s.admins| - 1])
  }

  /** Ports held are real, foreign to nobody, pairwise distinct, and the ones published,
      unless the search ran past 65535 and published 0. */
  predicate PortInv(s: Sys) {
    && (forall i :: 0 <= i < |s.admins| && HoldsPort(s.admins[i]) ==>
          && 0 < s.admins[i].held < PORTS && s.admins[i].held !in s.foreign
          && (s.admins[i].port == s.admins[i].held || s.admins[i].port == 0))
    && (forall i, j :: 0 <= i < j < |s.admins| && HoldsPort(s.admins[i]) && HoldsPort(s.admins[j]) ==>
          s.admins[i].held != s.admins[j].held)
  }

  /** Every search is at a try that the loop can reach. */
  predicate SearchInv(s: Sys) {
    forall i :: 0 <= i < |s.admins| && s.admins[i].phase.Searching? ==> 0 < s.admins[i].phase.tries <= MOST_TRIES
  }

  /** The publications are those of the first admins, one each, in creation order. */
  predicate MailInv(c: Config, s: Sys) {
    && |s.sent| <= |s.admins|
    && (forall i :: 0 <= i < |s.sent| ==>
          HasPublished(s.admins[i]) && s.sent[i] == Signal(PackPort(c.order, s.admins[i].port), i))
    && (forall i :: |s.sent| <= i < |s.admins| ==> !HasPublished(s.admins[i]))
  }

  function InHand(o: Option<Signal>): seq<Signal> {
    if o.Some? then [o.value] else []
  }

  /** The publications that were not dropped, in order. */
  function Kept(sent: seq<Signal>, lost: set<nat>): seq<Signal> {
    if sent == [] then []
    else
      var n := |sent| - 1;
      Kept(sent[..n], lost) + if n in lost then [] else [sent[n]]
  }

  function OnTheWay(s: Sys): seq<Signal> {
    s.applied + s.atBroadcaster + InHand(s.forwarding) + s.atHandler
  }

  /** Nothing lost, nothing duplicated, nothing overtaken. */
  predicate FlowInv(s: Sys) { s.sent == OnTheWay(s) }

  predicate Numbered(sent: seq<Signal>) {
    forall i :: 0 <= i < |sent| ==> sent[i].number == i
  }

  /** Nothing but what was dropped is lost, nothing duplicated, nothing overtaken; and the
      first publication never meets a waiting signal. */
  predicate SurvivorInv(c: Config, s: Sys) {
    && Numbered(s.sent)
    && (forall k :: k in s.lost ==> 0 < k < |s.sent|)
    && (c.delivery == Queued ==> s.lost == {})
    && Kept(s.sent, s.lost) == OnTheWay(s)
  }

  predicate AdvertisedInv(c: Config, s: Sys) {
    s.admAddr == if s.applied == [] then Address(0, 0) else TranslateSignal(c.order, s.applied[|s.applied| - 1].word)
  }

  predicate Inv(c: Config, s: Sys) {
    ChainInv(s) && PortInv(s) && SearchInv(s) && MailInv(c, s) && AdvertisedInv(c, s) && SurvivorInv(c, s)
  }

  // ---------------------------------------------------------------- every step keeps it

  lemma ChainStep(c: Config, s: Sys, e: Event)
    requires ChainInv(s) && Enabled(s, e)
    ensures ChainInv(After(c, s, e))
  {
    hide PackPort, TranslateSignal, Taken, Candidate;
  }

  lemma PortStep(c: Config, s: Sys, e: Event)
    requires PortInv(s) && Enabled(s, e)
    ensures PortInv(After(c, s, e))
  {
    hide PackPort, TranslateSignal, Taken, AfterTry;
    match e
    case TryBind(i, anyPort) => BindStep(s, i, anyPort);
    case Publish(i) => PhaseStep(s, i, Published);
    case Accept(i) => PhaseStep(s, i, Connected);
    case Request(i) => PhaseStep(s, i, Serving);
    case Leave(i) => PhaseStep(s, i, Finished);
    case Abort(i) => PhaseStep(s, i, Failed(s.admins[i].phase.Published?));
    case _ =>
  }

  /** No phase change but a successful bind gives an admin a port. */
  lemma PhaseStep(s: Sys, i: nat, phase: Phase)
    requires PortInv(s) && i < |s.admins|
    requires HoldsPort(s.admins[i].(phase := phase)) ==> HoldsPort(s.admins[i])
    ensures PortInv(WithPhase(s, i, phase))
  {
  }

  lemma BindStep(s: Sys, i: nat, anyPort: nat)
    requires PortInv(s) && i < |s.admins| && s.admins[i].phase.Searching?
    requires 0 < anyPort < PORTS && !Taken(s, anyPort)
    ensures PortInv(s.(admins := s.admins[i := AfterTry(s, i, anyPort)]))
  {
    hide Candidate;
  }

  lemma SearchStep(c: Config, s: Sys, e: Event)
    requires SearchInv(s) && Enabled(s, e)
    ensures SearchInv(After(c, s, e))
  {
    hide PackPort, TranslateSignal, Taken;
  }

  lemma MailStep(c: Config, s: Sys, e: Event)
    requires ChainInv(s) && MailInv(c, s) && Enabled(s, e)
    ensures MailInv(c, After(c, s, e))
  {
    hide PackPort, TranslateSignal, Taken, Candidate, ChainInv, MailInv, Enqueue;
    OnlyNewestUnpublished(c, s);
    match e
    case Fork => MailFork(c, s);
    case TryBind(i, anyPort) => MailChange(c, s, i, AfterTry(s, i, anyPort));
    case Publish(i) => MailPublish(c, s, i);
    case Accept(i) => MailChange(c, s, i, s.admins[i].(phase := Connected));
    case Request(i) => MailChange(c, s, i, s.admins[i].(phase := Serving));
    case Leave(i) => MailChange(c, s, i, s.admins[i].(phase := Finished));
    case Abort(i) => MailChange(c, s, i, s.admins[i].(phase := Failed(s.admins[i].phase.Published?)));
    case _ => MailSame(c, s, After(c, s, e));
  }

  lemma MailSame(c: Config, s: Sys, t: Sys)
    requires MailInv(c, s) && t.admins == s.admins && t.sent == s.sent
    ensures MailInv(c, t)
  {
    hide PackPort;
  }

  lemma MailFork(c: Config, s: Sys)
    requires MailInv(c, s) && Enabled(s, Fork)
    ensures MailInv(c, After(c, s, Fork))
  {
    hide PackPort;
  }

  /** What an admin has published stays as it is; before that it may still change its port. */
  lemma MailChange(c: Config, s: Sys, i: nat, a: Admin)
    requires MailInv(c, s) && i < |s.admins|
    requires HasPublished(a) == HasPublished(s.admins[i])
    requires HasPublished(a) ==> a.port == s.admins[i].port
    ensures forall t: Sys :: t.admins == s.admins[i := a] && t.sent == s.sent ==> MailInv(c, t)
  {
    hide PackPort;
  }

  lemma MailPublish(c: Config, s: Sys, i: nat)
    requires MailInv(c, s) && |s.sent| >= |s.admins| - 1 && Enabled(s, Publish(i))
    ensures MailInv(c, After(c, s, Publish(i)))
  {
    hide PackPort, Enqueue;
    assert !HasPublished(s.admins[i]) && i == |s.sent|;
  }

  lemma OnlyNewestUnpublished(c: Config, s: Sys)
    requires ChainInv(s) && MailInv(c, s)
    ensures |s.sent| >= |s.admins| - 1
  {
    hide PackPort;
    assert forall i :: 0 <= i < |s.admins| - 1 ==> HasRequested(s.admins[i]) && HasPublished(s.admins[i]);
    assert |s.sent| < |s.admins| ==> !HasPublished(s.admins[|s.sent|]);
  }

  lemma AdvertisedStep(c: Config, s: Sys, e: Event)
    requires AdvertisedInv(c, s) && Enabled(s, e)
    ensures AdvertisedInv(c, After(c, s, e))
  {
    hide PackPort, TranslateSignal, Taken;
  }

  /** A step keeps the flow of publications exact precisely when it drops nothing. */
  lemma FlowStep(c: Config, s: Sys, e: Event)
    requires FlowInv(s) && Enabled(s, e)
    ensures FlowInv(After(c, s, e)) <==> !Drops(c, s, e)
  {
    hide PackPort, TranslateSignal, Taken;
  }

  // ---------------------------------------------------------------- what survives

  /** Dropping one of the survivors takes just that one out. */
  lemma {:induction false} KeptDrop(sent: seq<Signal>, lost: set<nat>, a: seq<Signal>, x: Signal, b: seq<Signal>)
    requires Numbered(sent) && Kept(sent, lost) == a + [x] + b
    ensures Kept(sent, lost + {x.number}) == a + b
  {
    var n := |sent| - 1;
    var init := sent[..n];
    if n in lost {
      KeptDrop(init, lost, a, x, b);
    } else if b == [] {
      assert a + [x] + b == a + [x];
      SameLast(Kept(init, lost), sent[n], a, x);
      KeptBeyond(init, lost, n);
    } else {
      var m := |b| - 1;
      assert a + [x] + b == (a + [x] + b[..m]) + [b[m]];
      SameLast(Kept(init, lost), sent[n], a + [x] + b[..m], b[m]);
      KeptSorted(init, lost);
      assert Kept(init, lost)[|a|] == x;
      KeptDrop(init, lost, a, x, b[..m]);
      assert a + b[..m] + [b[m]] == a + b;
    }
  }

  lemma SameLast(r: seq<Signal>, y: Signal, a: seq<Signal>, z: Signal)
    requires r + [y] == a + [z]
    ensures r == a && y == z
  {
    assert |r + [y]| == |r| + 1 && |a + [z]| == |a| + 1;
    assert (r + [y])[..|r|] == r && (a + [z])[..|a|] == a;
    assert (r + [y])[|r|] == y && (a + [z])[|a|] == z;
  }

  lemma {:induction false} KeptBeyond(sent: seq<Signal>, lost: set<nat>, k: nat)
    requires k >= |sent|
    ensures Kept(sent, lost + {k}) == Kept(sent, lost)
  {
    if sent != [] {
      KeptBeyond(sent[..|sent| - 1], lost, k);
    }
  }

  predicate SortedBelow(r: seq<Signal>, n: nat) {
    && (forall i :: 0 <= i < |r| ==> r[i].number < n)
    && (forall i, j :: 0 <= i < j < |r| ==> r[i].number < r[j].number)
  }

  /** Survivors come in the order of their numbers. */
  lemma {:induction false} KeptSorted(sent: seq<Signal>, lost: set<nat>)
    requires Numbered(sent)
    ensures SortedBelow(Kept(sent, lost), |sent|)
  {
    if sent != [] {
      var n := |sent| - 1;
      KeptSorted(sent[..n], lost);
      SortedSnoc(Kept(sent[..n], lost), n, sent[n]);
    }
  }

  lemma SortedSnoc(r: seq<Signal>, n: nat, x: Signal)
    requires SortedBelow(r, n) && x.number == n
    ensures SortedBelow(r + [x], n + 1) && SortedBelow(r + [], n + 1)
  {
    assert r + [] == r;
  }

  /** The last survivor is the newest publication that was not dropped. */
  lemma {:induction false} KeptLast(sent: seq<Signal>, lost: set<nat>)
    requires Numbered(sent) && Kept(sent, lost) != []
    ensures var r := Kept(sent, lost); var x := r[|r| - 1];
            && x.number < |sent| && x == sent[x.number] && x.number !in lost
            && forall i :: x.number < i < |sent| ==> i in lost
  {
    var n := |sent| - 1;
    if n in lost {
      KeptLast(sent[..n], lost);
    }
  }

  lemma {:induction false} KeptFirst(sent: seq<Signal>, lost: set<nat>)
    requires sent != [] && 0 !in lost
    ensures Kept(sent, lost) != []
  {
    if |sent| > 1 {
      KeptFirst(sent[..|sent| - 1], lost);
    }
  }

  /** All publications survive exactly if none is dropped. */
  lemma {:induction false} KeptAll(sent: seq<Signal>, lost: set<nat>)
    ensures |Kept(sent, lost)| <= |sent|
    ensures Kept(sent, lost) == sent <==> forall i :: 0 <= i < |sent| ==> i !in lost
    ensures Kept(sent, lost) == sent <==> |Kept(sent, lost)| == |sent|
  {
    if sent != [] {
      var n := |sent| - 1;
      var r := Kept(sent[..n], lost);
      KeptAll(sent[..n], lost);
      assert sent == sent[..n] + [sent[n]];
      if n in lost {
        assert Kept(sent, lost) == r + [] == r;
      } else if r + [sent[n]] == sent {
        SameLast(r, sent[n], sent[..n], sent[n]);
      }
    }
  }

  lemma SurvivorStep(c: Config, s: Sys, e: Event)
    requires SurvivorInv(c, s) && Enabled(s, e)
    ensures SurvivorInv(c, After(c, s, e))
  {
    hide PackPort, TranslateSignal, Taken, Kept, AfterTry;
    match e
    case Publish(i) => SurvivorPublish(c, s, i);
    case Forward => SurvivorForward(c, s);
    case _ => assert OnTheWay(After(c, s, e)) == OnTheWay(s);
  }

  /** A new publication joins the survivors unless it is dropped at once. */
  lemma KeptSnoc(sent: seq<Signal>, lost: set<nat>, x: Signal)
    requires |sent| !in lost
    ensures Kept(sent + [x], lost) == Kept(sent, lost) + [x]
    ensures Kept(sent + [x], lost + {|sent|}) == Kept(sent, lost)
    ensures sent == [] ==> Kept(sent, lost) == []
  {
    assert (sent + [x])[..|sent|] == sent;
    KeptBeyond(sent, lost, |sent|);
  }

  lemma SurvivorPublish(c: Config, s: Sys, i: nat)
    requires SurvivorInv(c, s) && Enabled(s, Publish(i))
    ensures SurvivorInv(c, After(c, s, Publish(i)))
  {
    hide PackPort, Taken, Kept;
    var x := Signal(PackPort(c.order, s.admins[i].port), |s.sent|);
    var t := After(c, s, Publish(i));
    assert t.sent == s.sent + [x];
    KeptSnoc(s.sent, s.lost, x);
    assert OnTheWay(t) == OnTheWay(s) + if Drops(c, s, Publish(i)) then [] else [x];
  }

  lemma SurvivorForward(c: Config, s: Sys)
    requires SurvivorInv(c, s) && Enabled(s, Forward)
    ensures SurvivorInv(c, After(c, s, Forward))
  {
    hide Kept;
    var x := s.forwarding.value;
    var before := s.applied + s.atBroadcaster;
    assert OnTheWay(s) == before + [x] + s.atHandler;
    if Drops(c, s, Forward) {
      KeptDrop(s.sent, s.lost, before, x, s.atHandler);
      KeptSorted(s.sent, s.lost);
      assert Kept(s.sent, s.lost)[|before|] == x && Kept(s.sent, s.lost)[0].number < x.number;
      assert OnTheWay(After(c, s, Forward)) == before + s.atHandler;
    } else {
      assert OnTheWay(After(c, s, Forward)) == OnTheWay(s);
    }
  }

  lemma InvStep(c: Config, s: Sys, e: Event)
    requires Inv(c, s) && Enabled(s, e)
    ensures Inv(c, After(c, s, e))
  {
    ChainStep(c, s, e);
    PortStep(c, s, e);
    SearchStep(c, s, e);
    MailStep(c, s, e);
    AdvertisedStep(c, s, e);
    SurvivorStep(c, s, e);
  }

  /** The invariant holds in every reachable state, whatever the interleaving. */
  lemma {:induction false} RunKeepsInv(c: Config, foreign: set<nat>, events: seq<Event>)
    ensures var r := Run(c, foreign, events); r.Some? ==> Inv(c, r.value)
  {
    if events != [] {
      var before := events[..|events| - 1];
      RunKeepsInv(c, foreign, before);
      var r := Run(c, foreign, before);
      if r.Some? && Enabled(r.value, events[|events| - 1]) {
        InvStep(c, r.value, events[|events| - 1]);
      }
    }
  }

  lemma ReachableInv(c: Config, s: Sys)
    requires Reachable(c, s)
    ensures Inv(c, s)
  {
    var foreign: set<nat>, events: seq<Event> :| Run(c, foreign, events) == Some(s);
    RunKeepsInv(c, foreign, events);
  }

  // ---------------------------------------------------------------- what it means

  function CountIf(admins: seq<Admin>, p: Admin -> bool): nat {
    if admins == [] then 0
    else CountIf(admins[..|admins| - 1], p) + Bit(p(admins[|admins| - 1]))
  }

  lemma {:induction false} CountAll(admins: seq<Admin>, p: Admin -> bool)
    ensures (forall i :: 0 <= i < |admins| ==> p(admins[i])) ==> CountIf(admins, p) == |admins|
    ensures (forall i :: 0 <= i < |admins| ==> !p(admins[i])) ==> CountIf(admins, p) == 0
  {
    if admins != [] {
      CountAll(admins[..|admins| - 1], p);
    }
  }

  predicate Owes(a: Admin) { !HasRequested(a) && !a.phase.Failed? }

  /** Pending requests, forks in progress, and admins that still owe their request. */
  function Tokens(s: Sys): nat {
    Bit(s.request) + Bit(s.forking) + CountIf(s.admins, Owes)
  }

  predicate SomeFailed(s: Sys) { exists i :: 0 <= i < |s.admins| && s.admins[i].phase.Failed? }

  /** There is at most one token, and none exactly if an admin failed before serving; so a
      request never meets a pending one and none is ever merged away. */
  lemma OneToken(c: Config, s: Sys)
    requires Reachable(c, s)
    ensures Tokens(s) <= 1
    ensures Tokens(s) == 0 <==> SomeFailed(s)
    ensures s.lostRequests == 0
  {
    ReachableInv(c, s);
    hide PortInv, SearchInv, MailInv, AdvertisedInv, FlowInv, Reachable;
    TokenFromChain(s);
  }

  lemma TokenFromChain(s: Sys)
    requires ChainInv(s)
    ensures Tokens(s) <= 1
    ensures Tokens(s) == 0 <==> SomeFailed(s)
  {
    if s.admins != [] {
      CountAll(s.admins[..|s.admins| - 1], Owes);
      assert SomeFailed(s) <==> s.admins[|s.admins| - 1].phase.Failed?;
    }
  }

  /** Each session has exactly one successor: counted over the run, the admins that have
      requested are as many as the admins forked or about to be forked after the first;
      and admin number i+1 is the one that admin number i asked for. */
  lemma OneSuccessorEach(c: Config, s: Sys)
    requires Reachable(c, s)
    ensures CountIf(s.admins, HasRequested) == s.requests
         == |s.admins| + Bit(s.request) + Bit(s.forking) - 1
    ensures forall i :: 0 <= i < |s.admins| ==>
              (HasRequested(s.admins[i]) <==> i + 1 < |s.admins| + Bit(s.request) + Bit(s.forking))
  {
    ReachableInv(c, s);
    hide PortInv, SearchInv, MailInv, AdvertisedInv, FlowInv, Reachable;
    SuccessorsFromChain(s);
  }

  lemma SuccessorsFromChain(s: Sys)
    requires ChainInv(s)
    ensures CountIf(s.admins, HasRequested) == s.requests
         == |s.admins| + Bit(s.request) + Bit(s.forking) - 1
    ensures forall i :: 0 <= i < |s.admins| ==>
              (HasRequested(s.admins[i]) <==> i + 1 < |s.admins| + Bit(s.request) + Bit(s.forking))
  {
    if s.admins != [] {
      CountAll(s.admins[..|s.admins| - 1], HasRequested);
    }
  }

  predicate Drained(s: Sys) {
    s.atHandler == [] && s.forwarding.None? && s.atBroadcaster == []
  }

  /** With signals that queue, the ports published in creation order are those already
      applied, then those on their way. Once the queues are drained the broadcaster's
      answer, read back by the asker, is the port of the newest admin that published. */
  lemma NewestPortIsAdvertised(c: Config, s: Sys)
    requires c.delivery == Queued && Reachable(c, s)
    ensures |s.sent| <= |s.admins|
    ensures forall i :: 0 <= i < |s.admins| ==> (HasPublished(s.admins[i]) <==> i < |s.sent|)
    ensures forall i :: 0 <= i < |s.sent| ==>
              PortOf(c.order, TranslateSignal(c.order, s.sent[i].word)) == s.admins[i].port
    ensures s.sent == s.applied + s.atBroadcaster + InHand(s.forwarding) + s.atHandler
    ensures Drained(s) && s.sent != [] ==>
              Atoi(AnswerText(c.order, s.admAddr)) == s.admins[|s.sent| - 1].port
  {
    ReachableInv(c, s);
    hide Reachable, PortInv, ChainInv, MailInv, AdvertisedInv, Kept;
    hide PortOf, PackPort, TranslateSignal, Atoi, AnswerText;
    PublishedPortsReadBack(c, s);
    KeptAll(s.sent, s.lost);
    if Drained(s) && s.sent != [] {
      AdvertisedWhenDrained(c, s);
    }
  }

  /** Drained, the answer is the port of the newest publication that was not dropped. */
  lemma AdvertisedWhenDrained(c: Config, s: Sys)
    requires MailInv(c, s) && AdvertisedInv(c, s) && SurvivorInv(c, s) && Drained(s) && s.sent != []
    ensures s.applied != []
    ensures var m := s.applied[|s.applied| - 1].number;
            && m < |s.sent| <= |s.admins| && m !in s.lost
            && (forall i :: m < i < |s.sent| ==> i in s.lost)
            && Atoi(AnswerText(c.order, s.admAddr)) == s.admins[m].port
  {
    hide PortOf, PackPort, TranslateSignal, Atoi, AnswerText, Kept;
    assert s.applied == OnTheWay(s);
    KeptFirst(s.sent, s.lost);
    KeptLast(s.sent, s.lost);
    PublishedPortsReadBack(c, s);
    AnswerReadsBack(c, s.admAddr);
  }

  lemma PublishedPortsReadBack(c: Config, s: Sys)
    requires MailInv(c, s)
    ensures |s.sent| <= |s.admins|
    ensures forall i :: 0 <= i < |s.admins| ==> (HasPublished(s.admins[i]) <==> i < |s.sent|)
    ensures forall i :: 0 <= i < |s.sent| ==>
              PortOf(c.order, TranslateSignal(c.order, s.sent[i].word)) == s.admins[i].port
  {
    hide PortOf, PackPort, TranslateSignal;
    forall i | 0 <= i < |s.sent|
      ensures PortOf(c.order, TranslateSignal(c.order, s.sent[i].word)) == s.admins[i].port
    {
      PortSurvivesSignal(c.order, s.admins[i].port);
    }
  }

  lemma AnswerReadsBack(c: Config, a: Address)
    ensures Atoi(AnswerText(c.order, a)) == PortOf(c.order, a)
  {
    hide PortOf, Atoi, Decimal;
    AtoiRoundTrip(PortOf(c.order, a), "\n");
  }

  /** Live admins hold pairwise distinct ports that no other program holds, and publish
      pairwise distinct ones as long as their search found a port above 23456. */
  lemma LivePortsDistinct(c: Config, s: Sys, i: nat, j: nat)
    requires Reachable(c, s) && i < j < |s.admins|
    requires HoldsPort(s.admins[i]) && HoldsPort(s.admins[j])
    ensures s.admins[i].held != s.admins[j].held && s.admins[i].held !in s.foreign
    ensures s.admins[i].port != 0 ==> s.admins[i].port != s.admins[j].port
    ensures s.admins[i].port != 0 ==> s.admins[i].port == s.admins[i].held
  {
    ReachableInv(c, s);
  }

  /** What one try comes to: while 65535 is not passed it is for the port that many above
      23456, which is claimed and going to be published if it is free, and else the next
      try follows; the try after that claims whatever port the kernel picks, and 0 is going
      to be published. */
  lemma OneTry(c: Config, s: Sys, i: nat, anyPort: nat)
    requires Enabled(s, TryBind(i, anyPort)) && 0 < s.admins[i].phase.tries <= 42080
    ensures var k := s.admins[i].phase.tries; var t := After(c, s, TryBind(i, anyPort));
            && t == s.(admins := t.admins) && |t.admins| == |s.admins|
            && (forall j :: 0 <= j < |s.admins| && j != i ==> t.admins[j] == s.admins[j])
            && t.admins[i] == if k == 42080 then Admin(Bound, 0, anyPort)
                              else if Taken(s, 23456 + k) then s.admins[i].(phase := Searching(k + 1))
                              else Admin(Bound, 23456 + k, 23456 + k)
  {
    hide Taken;
  }

  /** No search goes on for ever: in every reachable state, whatever else has happened, an
      admin that still searches is at one of its first 42080 tries. */
  lemma SearchesEnd(c: Config, s: Sys, i: nat)
    requires Reachable(c, s) && i < |s.admins| && s.admins[i].phase.Searching?
    ensures 0 < s.admins[i].phase.tries <= MOST_TRIES
  {
    ReachableInv(c, s);
  }

  /** Admin `i` has not got past port `p`. */
  predicate SearchWithin(s: Sys, i: nat, p: nat) {
    i < |s.admins| ==>
      var a := s.admins[i];
      && (a.phase.Searching? ==> 0 < a.phase.tries <= p - BROADCAST_PORT)
      && (HoldsPort(a) ==> BROADCAST_PORT < a.port <= p && a.held == a.port)
  }

  /** Port `p` is free, or admin `i` has finished searching. */
  predicate FreeForSearch(s: Sys, i: nat, p: nat) {
    i < |s.admins| && s.admins[i].phase.Searching? ==> !Taken(s, p)
  }

  lemma SearchWithinStep(c: Config, s: Sys, e: Event, i: nat, p: nat)
    requires Enabled(s, e) && BROADCAST_PORT < p < PORTS
    requires SearchWithin(s, i, p) && FreeForSearch(s, i, p)
    ensures SearchWithin(After(c, s, e), i, p)
  {
    hide PackPort, TranslateSignal, Taken;
    if e.TryBind? && e.i == i {
      assert Candidate(s.admins[i].phase.tries) == BROADCAST_PORT + s.admins[i].phase.tries;
    }
  }

  /** Over all interleavings: a port above 23456 that nobody takes while an admin searches
      bounds its search. As long as it searches it has made no more tries than that port is
      above 23456, and the port it gets is not above it. */
  lemma {:induction false} FreePortBoundsSearch(c: Config, foreign: set<nat>, events: seq<Event>, i: nat, p: nat)
    requires BROADCAST_PORT < p < PORTS && Run(c, foreign, events).Some?
    requires forall n :: 0 <= n < |events| && Run(c, foreign, events[..n]).Some? ==>
               FreeForSearch(Run(c, foreign, events[..n]).value, i, p)
    ensures SearchWithin(Run(c, foreign, events).value, i, p)
  {
    hide Enabled, After, SearchWithin, FreeForSearch;
    if events == [] {
      assert SearchWithin(Initial(foreign), i, p) by {
        NobodySearches(foreign, i, p);
      }
    } else {
      var m := |events| - 1;
      var before := events[..m];
      forall n | 0 <= n < |before| && Run(c, foreign, before[..n]).Some?
        ensures FreeForSearch(Run(c, foreign, before[..n]).value, i, p)
      {
        assert before[..n] == events[..n];
      }
      FreePortBoundsSearch(c, foreign, before, i, p);
      SearchWithinStep(c, Run(c, foreign, before).value, events[m], i, p);
    }
  }

  lemma NobodySearches(foreign: set<nat>, i: nat, p: nat)
    ensures SearchWithin(Initial(foreign), i, p)
  {
  }

  /** `n` turns of one admin's bind loop, with nothing else happening in between. */
  function Tries(s: Sys, i: nat, anyPort: nat, n: nat): Sys
    requires i < |s.admins|
    decreases n
  {
    if n == 0 || !s.admins[i].phase.Searching? then s
    else Tries(s.(admins := s.admins[i := AfterTry(s, i, anyPort)]), i, anyPort, n - 1)
  }

  /** An undisturbed search claims the least port above 23456 that nobody holds, after as
      many tries as that port is above 23456; the loop of one process does the same. */
  lemma {:induction false} UndisturbedSearch(s: Sys, i: nat, anyPort: nat, p: nat)
    requires i < |s.admins| && s.admins[i].phase.Searching?
    requires BROADCAST_PORT < p < PORTS && !Taken(s, p)
    requires forall q :: BROADCAST_PORT < q < p ==> Taken(s, q)
    requires 0 < s.admins[i].phase.tries <= p - BROADCAST_PORT
    ensures Tries(s, i, anyPort, p - BROADCAST_PORT - s.admins[i].phase.tries + 1)
         == s.(admins := s.admins[i := Admin(Bound, p, p)])
    decreases p - s.admins[i].phase.tries
  {
    var k := s.admins[i].phase.tries;
    var t := s.(admins := s.admins[i := AfterTry(s, i, anyPort)]);
    assert Candidate(k) == BROADCAST_PORT + k;
    if k < p - BROADCAST_PORT {
      SearchingHoldsNothing(s, i, k + 1);
      UndisturbedSearch(t, i, anyPort, p);
    } else {
      assert Tries(t, i, anyPort, 0) == t;
    }
  }

  lemma SearchingHoldsNothing(s: Sys, i: nat, k: nat)
    requires i < |s.admins| && s.admins[i].phase.Searching?
    ensures forall q :: Taken(WithPhase(s, i, Searching(k)), q) <==> Taken(s, q)
  {
    var t := WithPhase(s, i, Searching(k));
    forall q
      ensures Taken(t, q) <==> Taken(s, q)
    {
      assert forall j :: 0 <= j < |s.admins| && j != i ==> t.admins[j] == s.admins[j];
    }
  }

  /** An admin that leaves, or fails, holds no port any more: just its port becomes free,
      and nothing happens to the other admins. */
  lemma PortReleased(c: Config, s: Sys, e: Event, i: nat)
    requires PortInv(s) && Enabled(s, e) && (e == Leave(i) || e == Abort(i))
    ensures var t := After(c, s, e);
            && |t.admins| == |s.admins| && t.foreign == s.foreign
            && (forall j :: 0 <= j < |s.admins| && j != i ==> t.admins[j] == s.admins[j])
            && t.admins[i].phase == (if e.Leave? then Finished else Failed(s.admins[i].phase.Published?))
            && (forall p :: Taken(t, p) <==> Taken(s, p) && !(HoldsPort(s.admins[i]) && s.admins[i].held == p))
  {
    hide PackPort, TranslateSignal, Candidate;
    var t := After(c, s, e);
    assert forall j :: 0 <= j < |s.admins| && j != i ==> t.admins[j] == s.admins[j];
  }

  /** Other programs may take any port that no admin holds, and give up any of theirs. */
  lemma OthersTake(c: Config, s: Sys, foreign: set<nat>)
    requires PortInv(s) && Enabled(s, Others(foreign))
    ensures var t := After(c, s, Others(foreign));
            && t.admins == s.admins
            && (forall p :: Taken(t, p) <==> p in foreign || (Taken(s, p) && p !in s.foreign))
  {
    hide PackPort, TranslateSignal, Candidate;
  }

  // ---------------------------------------------------------------- what is possible

  /** Nothing waits for anything but its turn: an admin can always take its next step, or
      fail as long as it has no client, and one that searches can try, whatever free port
      the kernel would pick; and of what is under way something can always be carried on. */
  lemma NothingStuck(s: Sys, i: nat, anyPort: nat)
    requires i < |s.admins|
    ensures s.admins[i].phase.Searching? && 0 < anyPort < 65536 && !Taken(s, anyPort) ==>
              Enabled(s, TryBind(i, anyPort))
    ensures Enabled(s, Publish(i)) <==> s.admins[i].phase == Bound
    ensures Enabled(s, Accept(i)) <==> s.admins[i].phase == Published
    ensures Enabled(s, Request(i)) <==> s.admins[i].phase == Connected
    ensures Enabled(s, Leave(i)) <==> s.admins[i].phase == Serving
    ensures Enabled(s, Abort(i)) <==> s.admins[i].phase == Searching(1) || s.admins[i].phase == Published
    ensures s.request || s.forking ==> Enabled(s, TakeRequest) || Enabled(s, Fork)
    ensures !Drained(s) ==> Enabled(s, Fork) || Enabled(s, TakeAddress) || Enabled(s, Forward) || Enabled(s, Apply)
    ensures Enabled(s, Apply) <==> s.atBroadcaster != []
    ensures Enabled(s, Forward) <==> s.forwarding.Some? && !s.forking
  {
    hide Taken;
  }

  /** The state that a list of events leads to, if each is possible in its turn. */
  function RunFrom(c: Config, s: Sys, events: seq<Event>): Option<Sys>
    decreases |events|
  {
    if events == [] then Some(s)
    else if Enabled(s, events[0]) then RunFrom(c, After(c, s, events[0]), events[1..])
    else None
  }

  lemma FourEvents(c: Config, s: Sys, e1: Event, e2: Event, e3: Event, e4: Event)
    requires Enabled(s, e1) && Enabled(After(c, s, e1), e2)
    requires Enabled(After(c, After(c, s, e1), e2), e3)
    requires Enabled(After(c, After(c, After(c, s, e1), e2), e3), e4)
    ensures RunFrom(c, s, [e1, e2, e3, e4]) == Some(After(c, After(c, After(c, After(c, s, e1), e2), e3), e4))
  {
    hide Enabled, After;
    var s1 := After(c, s, e1);
    var s2 := After(c, s1, e2);
    var s3 := After(c, s2, e3);
    assert [e1, e2, e3, e4][1..] == [e2, e3, e4] && [e2, e3, e4][1..] == [e3, e4] && [e3, e4][1..] == [e4];
    assert RunFrom(c, s, [e1, e2, e3, e4]) == RunFrom(c, s1, [e2, e3, e4]);
    assert RunFrom(c, s1, [e2, e3, e4]) == RunFrom(c, s2, [e3, e4]);
    assert RunFrom(c, s2, [e3, e4]) == RunFrom(c, s3, [e4]);
    assert [e4][1..] == [];
    assert RunFrom(c, s3, [e4]) == RunFrom(c, After(c, s3, e4), []);
  }

  /** An admin that has bound its port can publish it, and four events later its port is
      the one advertised, with nothing under way. */
  lemma PublicationArrives(c: Config, s: Sys, i: nat)
    requires AdminIs(s, i, Bound) && Drained(s) && !s.forking
    ensures var r := RunFrom(c, s, [Publish(i), TakeAddress, Forward, Apply]);
            && r.Some? && Drained(r.value) && r.value.admins == s.admins[i := s.admins[i].(phase := Published)]
            && Atoi(AnswerText(c.order, r.value.admAddr)) == s.admins[i].port
  {
    hide PackPort, TranslateSignal, Candidate, PortOf, Atoi, AnswerText, RunFrom;
    var x := Signal(PackPort(c.order, s.admins[i].port), |s.sent|);
    var s1 := WithPhase(s, i, Published).(atHandler := [x], sent := s.sent + [x]);
    assert s1 == After(c, s, Publish(i));
    var s2 := s1.(forwarding := Some(x), atHandler := []);
    assert s2 == After(c, s1, TakeAddress);
    var s3 := s2.(forwarding := None, atBroadcaster := [x]);
    assert s3 == After(c, s2, Forward);
    FourEvents(c, s, Publish(i), TakeAddress, Forward, Apply);
    PortSurvivesSignal(c.order, s.admins[i].port);
    AnswerReadsBack(c, After(c, s3, Apply).admAddr);
  }

  /** An admin that waits can accept a client, and four events later it serves and its
      successor searches for a port; no request is left over. */
  lemma SuccessorFollows(c: Config, s: Sys, i: nat)
    requires ChainInv(s) && AdminIs(s, i, Published)
    ensures var r := RunFrom(c, s, [Accept(i), Request(i), TakeRequest, Fork]);
            && r.Some? && !r.value.request && !r.value.forking
            && r.value.admins == s.admins[i := s.admins[i].(phase := Serving)] + [Admin(Searching(1), 0, 0)]
            && r.value.sent == s.sent && r.value.applied == s.applied && r.value.admAddr == s.admAddr
  {
    hide PackPort, TranslateSignal, Candidate, RunFrom;
    assert i == |s.admins| - 1 && !s.request && !s.forking;
    var s1 := WithPhase(s, i, Connected);
    assert s1 == After(c, s, Accept(i));
    var s2 := WithPhase(s1, i, Serving).(request := true, requests := s.requests + 1);
    assert s2 == After(c, s1, Request(i));
    var s3 := s2.(request := false, forking := true);
    assert s3 == After(c, s2, TakeRequest);
    FourEvents(c, s, Accept(i), Request(i), TakeRequest, Fork);
  }

  // ---------------------------------------------------------------- when signals merge

  /** Event `k` of a run drops publication `i`. */
  predicate DropsAt(c: Config, foreign: set<nat>, events: seq<Event>, k: nat, i: nat) {
    && k < |events|
    && var r := Run(c, foreign, events[..k]); r.Some? && Discarded(c, r.value, events[k]) == Some(i)
  }

  /** Publication `i` is dropped in the run, at its publication or at its forwarding. */
  ghost predicate Dropped(c: Config, foreign: set<nat>, events: seq<Event>, i: nat) {
    exists k: nat :: DropsAt(c, foreign, events, k, i)
  }

  lemma {:induction false} LostAreDropped(c: Config, foreign: set<nat>, events: seq<Event>, i: nat)
    ensures var r := Run(c, foreign, events); r.Some? ==> (i in r.value.lost <==> Dropped(c, foreign, events, i))
  {
    hide Enabled, PackPort, TranslateSignal;
    if events != [] {
      var n := |events| - 1;
      var before := events[..n];
      LostAreDropped(c, foreign, before, i);
      forall k: nat | k < n
        ensures DropsAt(c, foreign, events, k, i) <==> DropsAt(c, foreign, before, k, i)
      {
        assert events[..k] == before[..k];
      }
      assert Dropped(c, foreign, events, i)
        <==> Dropped(c, foreign, before, i) || DropsAt(c, foreign, events, n, i) by {
        assert forall k: nat :: DropsAt(c, foreign, before, k, i) ==> DropsAt(c, foreign, events, k, i);
        assert forall k: nat :: DropsAt(c, foreign, events, k, i) ==> k == n || DropsAt(c, foreign, before, k, i);
      }
      var r := Run(c, foreign, before);
      if r.Some? && Enabled(r.value, events[n]) {
        LostStep(c, r.value, events[n]);
      }
    }
  }

  lemma LostStep(c: Config, s: Sys, e: Event)
    requires Enabled(s, e)
    ensures After(c, s, e).lost == LostAfter(c, s, e)
  {
    hide PackPort, TranslateSignal, Taken, AfterTry;
  }

  /** Over a whole run the flow of publications is exact, published = applied, then on their
      way, if and only if no event of the run drops one. In any case it is exact for those
      that were not dropped. */
  lemma FlowExactIff(c: Config, foreign: set<nat>, events: seq<Event>)
    ensures var r := Run(c, foreign, events); r.Some? ==>
              && Kept(r.value.sent, r.value.lost) == OnTheWay(r.value)
              && (forall i: nat :: i in r.value.lost <==> Dropped(c, foreign, events, i))
              && (FlowInv(r.value) <==> !exists i: nat :: Dropped(c, foreign, events, i))
  {
    hide Run, Dropped, Kept, ChainInv, PortInv, MailInv, AdvertisedInv;
    RunKeepsInv(c, foreign, events);
    var r := Run(c, foreign, events);
    if r.Some? {
      forall i: nat
        ensures i in r.value.lost <==> Dropped(c, foreign, events, i)
      {
        LostAreDropped(c, foreign, events, i);
      }
      KeptAll(r.value.sent, r.value.lost);
    }
  }

  /** Which port is advertised once everything is drained, queued or merged: that of the
      newest publication that was dropped neither when it was published nor when it was
      forwarded. So the last word applied is the newest admin's if and only if that
      publication was not dropped; drops of older ones do no harm. */
  lemma AdvertisedIsNewestKept(c: Config, foreign: set<nat>, events: seq<Event>)
    ensures var r := Run(c, foreign, events);
            r.Some? && Drained(r.value) && r.value.sent != [] ==>
              var s := r.value;
              && s.applied != []
              && var m, newest := s.applied[|s.applied| - 1].number, |s.sent| - 1;
              && m <= newest < |s.admins|
              && Atoi(AnswerText(c.order, s.admAddr)) == s.admins[m].port
              && !Dropped(c, foreign, events, m)
              && (forall i :: m < i <= newest ==> Dropped(c, foreign, events, i))
              && (m == newest <==> !Dropped(c, foreign, events, newest))
  {
    hide Run, Dropped, Kept, ChainInv, PortInv, MailInv, AdvertisedInv, SurvivorInv, FlowInv, Atoi, AnswerText;
    RunKeepsInv(c, foreign, events);
    FlowExactIff(c, foreign, events);
    var r := Run(c, foreign, events);
    if r.Some? && Drained(r.value) && r.value.sent != [] {
      AdvertisedWhenDrained(c, r.value);
    }
  }

  lemma Extend(c: Config, foreign: set<nat>, events: seq<Event>, s: Sys, e: Event)
    requires Run(c, foreign, events) == Some(s) && Enabled(s, e)
    ensures Run(c, foreign, events + [e]) == Some(After(c, s, e))
  {
    var all := events + [e];
    assert all[..|all| - 1] == events;
  }

  lemma ReachableStep(c: Config, s: Sys, e: Event)
    requires Reachable(c, s) && Enabled(s, e)
    ensures Reachable(c, After(c, s, e))
  {
    var foreign: set<nat>, events: seq<Event> :| Run(c, foreign, events) == Some(s);
    Extend(c, foreign, events, s, e);
  }

  lemma InitialReachable(c: Config, foreign: set<nat>)
    ensures Reachable(c, Initial(foreign))
  {
    assert Run(c, foreign, []) == Some(Initial(foreign));
  }

  /** One admin on port 23457, its word delivered to the broadcaster but not yet applied,
      already serving a client. */
  function OneServing(order: ByteOrder): Sys {
    var w := Signal(PackPort(order, 23457), 0);
    Sys([Admin(Serving, 23457, 23457)], {}, true, false, [], None, [w], Address(0, 0), [w], [], {}, 1, 0)
  }

  lemma OnePublishedReachable(order: ByteOrder)
    ensures Reachable(Config(order, Merged), OnePublished(order))
  {
    hide PackPort, TranslateSignal, Reachable;
    var c := Config(order, Merged);
    var none := Address(0, 0);
    var s := Initial({});
    InitialReachable(c, {});
    s := Next(c, s, TakeRequest);
    s := Next(c, s, Fork);
    assert s == Sys([Admin(Searching(1), 0, 0)], {}, false, false, [], None, [], none, [], [], {}, 0, 0);
    s := Next(c, s, TryBind(0, 1));
    assert s == Sys([Admin(Bound, 23457, 23457)], {}, false, false, [], None, [], none, [], [], {}, 0, 0);
    s := Next(c, s, Publish(0));
    assert s == OnePublished(order);
  }

  /** The first admin waiting for a client, its word on the way. */
  function OnePublished(order: ByteOrder): Sys {
    var w := Signal(PackPort(order, 23457), 0);
    Sys([Admin(Published, 23457, 23457)], {}, false, false, [w], None, [], Address(0, 0), [w], [], {}, 0, 0)
  }

  lemma OneServingReachable(order: ByteOrder)
    ensures Reachable(Config(order, Merged), OneServing(order))
  {
    hide PackPort, TranslateSignal, Reachable;
    var c := Config(order, Merged);
    var w := Signal(PackPort(order, 23457), 0);
    var none := Address(0, 0);
    OnePublishedReachable(order);
    var s := OnePublished(order);
    s := Next(c, s, TakeAddress);
    s := Next(c, s, Forward);
    assert s == Sys([Admin(Published, 23457, 23457)], {}, false, false, [], None, [w], none, [w], [], {}, 0, 0);
    s := Next(c, s, Accept(0));
    assert s == Sys([Admin(Connected, 23457, 23457)], {}, false, false, [], None, [w], none, [w], [], {}, 0, 0);
    s := Next(c, s, Request(0));
    assert s == OneServing(order);
  }

  lemma Next(c: Config, s: Sys, e: Event) returns (s': Sys)
    requires Reachable(c, s) && Enabled(s, e)
    ensures Reachable(c, s') && s' == After(c, s, e)
  {
    ReachableStep(c, s, e);
    s' := After(c, s, e);
  }

  /** The second admin forked while the first one's word still waits at the broadcaster;
      it finds 23457 taken and claims 23458. */
  function SecondBound(order: ByteOrder): Sys {
    var w := Signal(PackPort(order, 23457), 0);
    Sys([Admin(Serving, 23457, 23457), Admin(Bound, 23458, 23458)],
        {}, false, false, [], None, [w], Address(0, 0), [w], [], {}, 1, 0)
  }

  lemma SecondBoundReachable(order: ByteOrder)
    ensures Reachable(Config(order, Merged), SecondBound(order))
  {
    hide PackPort, TranslateSignal, Reachable;
    var c := Config(order, Merged);
    var w := Signal(PackPort(order, 23457), 0);
    var none := Address(0, 0);
    var first := Admin(Serving, 23457, 23457);
    OneServingReachable(order);
    var s := OneServing(order);
    s := Next(c, s, TakeRequest);
    s := Next(c, s, Fork);
    assert s == Sys([first, Admin(Searching(1), 0, 0)], {}, false, false, [], None, [w], none, [w], [], {}, 1, 0);
    assert Taken(s, 23457) && !Taken(s, 1) by { assert HoldsPort(s.admins[0]); }
    s := Next(c, s, TryBind(1, 1));
    assert s == Sys([first, Admin(Searching(2), 0, 0)], {}, false, false, [], None, [w], none, [w], [], {}, 1, 0);
    s := Next(c, s, TryBind(1, 1));
    assert s == SecondBound(order);
  }

  /** The assumption that signals queue is needed. Where they merge, a broadcaster that has
      not yet run when the second address is forwarded never learns of it: everything is
      drained, yet the answer names the first admin's port, not the newest one's. */
  lemma MergingLosesNewest(order: ByteOrder)
    ensures exists s: Sys :: Reachable(Config(order, Merged), s)
              && Drained(s) && |s.admins| == |s.sent| == 2
              && s.admins[1] == Admin(Published, 23458, 23458) && s.lost == {1}
              && PortOf(order, s.admAddr) == 23457
  {
    hide PackPort, TranslateSignal, PortOf, Reachable;
    var c := Config(order, Merged);
    SecondBoundReachable(order);
    var s := SecondBound(order);
    s := Next(c, s, Publish(1));
    s := Next(c, s, TakeAddress);
    s := Next(c, s, Forward);
    s := Next(c, s, Apply);
    PortSurvivesSignal(order, 23457);
  }
}
