/** The old client: a status of 0, 1 or 2 decides which requests a prompt line may send. */
module OldClient {
  import opened CText
  import opened Commands
  import opened SavedSession

  const DISCONNECTED := 0
  const CONNECTED := 1
  const LOGGED_IN := 2

  datatype Kind = LoginRequest | SessionRequest | ExecRequest | CopyRequest | Goodbye

  /** What passes between the client and an admin. */
  datatype Entry = Sent(kind: Kind) | Heard(kind: Kind, reply: string)

  /** What the surroundings contribute to one prompt line: whether a server is found, the
      keys then agreed, and the datagram with the admin's reply. */
  datatype Surroundings = Surroundings(found: bool, key: string, iv: string, reply: string)

  const LOGIN_PREFIX := "@Login "
  const SESSION_PREFIX := "@Have_previos_session "

  /** The terminator written behind a received reply stays inside its buffer, too. */
  predicate Terminable(reply: string) { |reply| < OLD_COMMAND_LENGTH }

  /** `sprintf` of a request into its message buffer stays inside it. */
  predicate Printable(request: string) { |request| < OLD_COMMAND_LENGTH }

  /** What `Auto_login` prints. */
  function SessionText(saved: Saved): string {
    SESSION_PREFIX + SavedLine(saved.login + "#" + saved.password, saved.key, saved.iv)
  }

  /** The code `Do_task` returns, or no defined result: a null pointer, a full
      buffer, or a function that returns nothing. */
  datatype Outcome = Code(code: int) | Crash

  /** `info_user`. */
  datatype User = User(login: string, password: string, key: string, iv: string, keyOld: string, ivOld: string)

  datatype State = State(status: nat, user: User, file: string, log: seq<Entry>)

  function Initial(file: string): State { State(DISCONNECTED, User("", "", "", "", "", ""), file, []) }

  function Requested(s: State, kind: Kind): State {
    s.(log := s.log + [Sent(kind)])
  }

  function Exchanged(s: State, kind: Kind, reply: string): State {
    s.(log := s.log + [Sent(kind), Heard(kind, TextOf(reply))])
  }

  function Connect(s: State, e: Surroundings): (State, Outcome) {
    if !e.found then (s.(status := DISCONNECTED), Code(-1))
    else
      var t := s.(status := CONNECTED, user := s.user.(key := e.key, iv := e.iv));
      match ReadSaved(s.file)
      case NoSession => (t, Code(CONNECTED))
      case NullSearch => (t, Crash)
      case Unterminated => (t, Crash)
      case Previous(saved) => AutoLogin(t.(user := WithSaved(t.user, saved)), saved, e)
  }

  function WithSaved(user: User, saved: Saved): User {
    user.(login := saved.login, password := saved.password, keyOld := saved.key, ivOld := saved.iv)
  }

  function AutoLogin(s: State, saved: Saved, e: Surroundings): (State, Outcome) {
    if !Printable(SessionText(saved)) then (s, Crash)
    else if !Terminable(e.reply) then (Requested(s, SessionRequest), Crash)
    else
      var t := Exchanged(s, SessionRequest, e.reply);
      // the file stays: it is opened without O_TRUNC and read-only
      if TextOf(e.reply) == SUCCESS then (t.(status := LOGGED_IN), Code(1)) else (t, Code(2))
  }

  function Login(s: State, logPas: string, e: Surroundings): (State, Outcome) {
    if !Printable(LOGIN_PREFIX + logPas) then (s, Crash)
    else if !Terminable(e.reply) then (Requested(s, LoginRequest), Crash)
    else
      var t := Exchanged(s, LoginRequest, e.reply);
      if TextOf(e.reply) != SUCCESS then (t, Code(2))
      else
        var u := t.(status := LOGGED_IN, file := SavedLine(logPas, s.user.key, s.user.iv));
        var i := IndexOf(logPas, '#', 0);
        if i == |logPas| then (u, Crash)
        else (u.(user := u.user.(login := logPas[..i], password := logPas[i + 1..])), Code(1))
  }

  /** The path behind the first space. */
  function TargetOf(arg: string): string
    requires ' ' in arg
  {
    SpaceSplits(arg);
    arg[IndexOf(arg, ' ', 0) + 1..]
  }

  /** `Do_task`. */
  function Next(s: State, input: Input, e: Surroundings): (State, Outcome) {
    if input.cmd == "@exit" then (s.(log := s.log + [Sent(Goodbye)]), Code(0))
    else if input.cmd == "@login" then
      if s.status == CONNECTED then Login(s, input.arg, e) else (s, Code(1))
    else if input.cmd == "@connect" then
      if s.status == DISCONNECTED then Connect(s, e) else (s, Code(-1))
    else if input.cmd == "@copy_to" then
      if s.status != LOGGED_IN then (s, Code(-1))
      else if ' ' !in input.arg || !Printable(COPY_PREFIX + TargetOf(input.arg)) then (s, Crash)
      else (Exchanged(s, CopyRequest, e.reply), Code(1))
    else if input.cmd == "@copy_from" then
      if s.status == LOGGED_IN then (s, Crash) else (s, Code(-1))
    else if input.cmd != "" && input.cmd[0] == '@' then (s, Code(-1))
    else if s.status != LOGGED_IN then (s, Code(-1))
    else if !Printable(EXEC_PREFIX + input.cmd + " " + input.arg) then (s, Crash)
    else (Exchanged(s, ExecRequest, e.reply), Code(1))
  }

  datatype Turn = Turn(input: Input, around: Surroundings)

  predicate Ended(o: Outcome) { o == Code(0) || o == Crash }

  /** The prompt loop `while (code)` over a script of lines, entered with the last outcome:
      the final state and outcome, and the number of lines taken. */
  function Session(s: State, o: Outcome, script: seq<Turn>): (r: (State, Outcome, nat))
    ensures r.2 <= |script|
    decreases script
  {
    if script == [] || Ended(o) then (s, o, 0)
    else
      var (t, o') := Next(s, script[0].input, script[0].around);
      var (u, o'', n) := Session(t, o', script[1..]);
      (u, o'', n + 1)
  }

  /** The whole run of the program. */
  function Prompt(file: string, script: seq<Turn>): (State, Outcome, nat) {
    Session(Initial(file), Code(1), script)
  }

  // ---------------------------------------------------------------- what the gates guarantee

  predicate Admission(e: Entry) {
    e.Heard? && (e.kind == LoginRequest || e.kind == SessionRequest) && e.reply == SUCCESS
  }

  predicate Admitted(log: seq<Entry>) { exists j :: 0 <= j < |log| && Admission(log[j]) }

  predicate NeedsLogin(e: Entry) { e == Sent(ExecRequest) || e == Sent(CopyRequest) }

  predicate Gated(log: seq<Entry>) {
    forall k :: 0 <= k < |log| && NeedsLogin(log[k]) ==> Admitted(log[..k])
  }

  predicate StateInv(s: State) {
    s.status <= LOGGED_IN && (s.status == LOGGED_IN <==> Admitted(s.log)) && Gated(s.log)
  }

  lemma LogGrows(log: seq<Entry>, more: seq<Entry>)
    requires Gated(log) && |more| <= 2
    requires |more| > 0 && NeedsLogin(more[0]) ==> Admitted(log)
    requires |more| == 2 ==> !NeedsLogin(more[1])
    ensures Gated(log + more)
    ensures Admitted(log + more) <==> Admitted(log) || exists j :: 0 <= j < |more| && Admission(more[j])
  {
    var all := log + more;
    forall k | 0 <= k < |all| && NeedsLogin(all[k])
      ensures Admitted(all[..k])
    {
      if k < |log| {
        assert all[..k] == log[..k];
      } else {
        assert k == |log| && all[..k] == log;
      }
    }
    assert forall j :: 0 <= j < |log| ==> all[j] == log[j];
    assert forall j :: 0 <= j < |more| ==> all[|log| + j] == more[j];
  }

  lemma NextKeeps(s: State, input: Input, e: Surroundings)
    requires StateInv(s)
    ensures var (t, o) := Next(s, input, e);
            && StateInv(t) && t.status >= s.status && s.log <= t.log
            && (o == Code(0) <==> input.cmd == "@exit")
  {
    hide ReadSaved, SavedLine, SessionText, TargetOf, TextOf, IndexOf, Gated, Admitted;
    LogGrows(s.log, []);
    assert s.log + [] == s.log;
    LogGrows(s.log, [Sent(Goodbye)]);
    LogGrows(s.log, [Sent(LoginRequest)]);
    LogGrows(s.log, [Sent(SessionRequest)]);
    LogGrows(s.log, [Sent(LoginRequest), Heard(LoginRequest, TextOf(e.reply))]);
    LogGrows(s.log, [Sent(SessionRequest), Heard(SessionRequest, TextOf(e.reply))]);
    if s.status == LOGGED_IN {
      LogGrows(s.log, [Sent(CopyRequest), Heard(CopyRequest, TextOf(e.reply))]);
      LogGrows(s.log, [Sent(ExecRequest), Heard(ExecRequest, TextOf(e.reply))]);
    }
  }

  lemma {:induction false} SessionKeeps(s: State, o: Outcome, script: seq<Turn>)
    requires StateInv(s)
    ensures var (t, o', n) := Session(s, o, script);
            && StateInv(t) && t.status >= s.status && s.log <= t.log
            && (n > 0 ==> (o' == Code(0) <==> script[n - 1].input.cmd == "@exit"))
            && (n == 0 ==> o' == o)
            && (forall i :: 0 <= i < n - 1 ==> script[i].input.cmd != "@exit")
            && (n < |script| ==> Ended(o'))
    decreases script
  {
    hide Next, StateInv;
    if script != [] && !Ended(o) {
      var (t, o') := Next(s, script[0].input, script[0].around);
      NextKeeps(s, script[0].input, script[0].around);
      SessionKeeps(t, o', script[1..]);
    }
  }

  /** In every run of the old client: it is logged in just when a login or session request
      of this run was answered "@Success"; an exec or copy request is sent only after that;
      and the prompt loop ends normally exactly when `@exit` is typed, at the first such line. */
  lemma OnlyAfterLogin(file: string, script: seq<Turn>)
    ensures var (s, o, n) := Prompt(file, script);
            && s.status <= LOGGED_IN && (s.status == LOGGED_IN <==> Admitted(s.log))
            && (forall k :: 0 <= k < |s.log| && NeedsLogin(s.log[k]) ==>
                  exists j :: 0 <= j < k && Admission(s.log[j]))
            && (o == Code(0) <==> 0 < n && script[n - 1].input.cmd == "@exit")
            && (forall i :: 0 <= i < n - 1 ==> script[i].input.cmd != "@exit")
            && (n < |script| ==> o == Code(0) || o == Crash)
  {
    SessionKeeps(Initial(file), Code(1), script);
    hide Session;
    var s := Prompt(file, script).0;
    forall k | 0 <= k < |s.log| && NeedsLogin(s.log[k])
      ensures exists j :: 0 <= j < k && Admission(s.log[j])
    {
      assert Admitted(s.log[..k]);
      var j :| 0 <= j < |s.log[..k]| && Admission(s.log[..k][j]);
      assert Admission(s.log[j]);
    }
  }

  /** In no run does the status ever decrease, from any line to any later one. */
  lemma StatusNeverDecreases(file: string, script: seq<Turn>, n: nat)
    requires n <= |script|
    ensures Prompt(file, script[..n]).0.status <= Prompt(file, script).0.status
  {
    StatusGrows(Initial(file), Code(1), script, n);
  }

  lemma {:induction false} StatusGrows(s: State, o: Outcome, script: seq<Turn>, n: nat)
    requires StateInv(s) && n <= |script|
    ensures Session(s, o, script[..n]).0.status <= Session(s, o, script).0.status
    decreases script
  {
    hide Next, StateInv;
    if n == 0 {
      SessionKeeps(s, o, script);
    } else if !Ended(o) {
      var (t, o') := Next(s, script[0].input, script[0].around);
      NextKeeps(s, script[0].input, script[0].around);
      assert script[..n][1..] == script[1..][..n - 1];
      StatusGrows(t, o', script[1..], n - 1);
    }
  }

  // ---------------------------------------------------------------- what is sent, and when

  /** Logged in, every line whose first word does not start with '@' is sent to be run, if
      its request fits into 1024 bytes, and the reply is heard; nothing else changes. */
  lemma CommandSent(s: State, input: Input, e: Surroundings)
    requires s.status == 2 && (input.cmd == "" || input.cmd[0] != '@')
    ensures Next(s, input, e) ==
            if |"@# " + input.cmd + " " + input.arg| < 1024
            then (s.(log := s.log + [Sent(ExecRequest), Heard(ExecRequest, TextOf(e.reply))]), Code(1))
            else (s, Crash)
  {
    hide TextOf;
  }

  /** So is every copy with two paths, if its target leaves the request below 1024 bytes. */
  lemma CopySent(s: State, source: string, target: string, e: Surroundings)
    requires s.status == 2 && ' ' !in source
    ensures Next(s, Input("@copy_to", source + " " + target), e) ==
            if |"@Copy_to " + target| < 1024
            then (s.(log := s.log + [Sent(CopyRequest), Heard(CopyRequest, TextOf(e.reply))]), Code(1))
            else (s, Crash)
  {
    hide TextOf, IndexOf;
    var arg := source + " " + target;
    IndexOfFirst(arg, ' ', 0, |source|);
    assert arg[|source|] == ' ' && arg[|source| + 1..] == target;
  }

  /** Connected, a login is sent and its reply heard; on "@Success", and on nothing else, the
      client is logged in, the line with the keys is saved, and the code is 1. */
  lemma LoginSent(s: State, logPas: string, e: Surroundings)
    requires s.status == 1 && |"@Login " + logPas| < 1024 && |e.reply| < 1024
    ensures var (t, o) := Next(s, Input("@login", logPas), e);
            && t.log == s.log + [Sent(LoginRequest), Heard(LoginRequest, TextOf(e.reply))]
            && (TextOf(e.reply) == "@Success" ==>
                  && t.status == 2 && t.file == logPas + "#" + s.user.key + "#" + s.user.iv + "\n"
                  && (o == Code(1) <==> '#' in logPas) && (o == Crash <==> '#' !in logPas))
            && (TextOf(e.reply) != "@Success" ==> t.status == 1 && t.file == s.file && t.user == s.user && o == Code(2))
  {
    hide TextOf, IndexOf;
    IndexOfFirst(logPas, '#', 0, IndexOf(logPas, '#', 0));
  }

  /** Disconnected, a connection that is found gives the client its keys, and with a saved
      line that can be read a request for its session is sent and the reply heard; on
      "@Success", and on nothing else, the client is logged in. Without such a line it is
      connected, and has sent nothing. */
  lemma SessionSent(s: State, arg: string, e: Surroundings)
    requires s.status == 0 && e.found && |e.reply| < 1024
    ensures var (t, o) := Next(s, Input("@connect", arg), e); var r := ReadSaved(s.file);
            && t.user.key == e.key && t.user.iv == e.iv && t.file == s.file
            && (r.NoSession? ==> t.status == 1 && o == Code(1) && t.log == s.log)
            && (r.Previous? && |SessionText(r.saved)| < 1024 ==>
                  && t.log == s.log + [Sent(SessionRequest), Heard(SessionRequest, TextOf(e.reply))]
                  && t.user == User(r.saved.login, r.saved.password, e.key, e.iv, r.saved.key, r.saved.iv)
                  && (if TextOf(e.reply) == "@Success" then t.status == 2 && o == Code(1)
                      else t.status == 1 && o == Code(2)))
            && (r.Unterminated? || r.NullSearch? ==> t.log == s.log && o == Crash)
  {
    hide TextOf, ReadSaved, SessionText;
  }

  /** A reply of 1024 bytes to one of these two requests overruns its buffer. */
  lemma ReplyTooLong(s: State, logPas: string, e: Surroundings)
    requires |e.reply| >= 1024
    ensures s.status == 1 && |"@Login " + logPas| < 1024 ==>
              Next(s, Input("@login", logPas), e) == (s.(log := s.log + [Sent(LoginRequest)]), Crash)
    ensures s.status == 0 && e.found && ReadSaved(s.file).Previous?
            && |SessionText(ReadSaved(s.file).saved)| < 1024 ==>
              var (t, o) := Next(s, Input("@connect", logPas), e);
              o == Crash && t.log == s.log + [Sent(SessionRequest)] && t.status == 1
  {
    hide TextOf, ReadSaved, SessionText;
  }

  lemma SessionTextIs(saved: Saved)
    ensures SessionText(saved) == "@Have_previos_session " +
            (saved.login + "#" + saved.password + "#" + saved.key + "#" + saved.iv + "\n")
  {
  }

  /** And nothing is sent in any other case. */
  lemma SentExactlyWhen(s: State, input: Input, e: Surroundings)
    ensures var (t, _) := Next(s, input, e); var r := ReadSaved(s.file);
            t.log != s.log <==>
              || input.cmd == "@exit"
              || (s.status == 0 && input.cmd == "@connect" && e.found && r.Previous? && |SessionText(r.saved)| < 1024)
              || (s.status == 1 && input.cmd == "@login" && |"@Login " + input.arg| < 1024)
              || (s.status == 2 && input.cmd == "@copy_to" && ' ' in input.arg && |TargetOf(input.arg)| < 1015)
              || (s.status == 2 && (input.cmd == "" || input.cmd[0] != '@') && |input.cmd| + |input.arg| < 1020)
    ensures input.cmd == "@exit" ==> Next(s, input, e) == (s.(log := s.log + [Sent(Goodbye)]), Code(0))
  {
    hide TextOf, ReadSaved, SessionText, TargetOf, SavedLine, IndexOf;
    var t := Next(s, input, e).0;
    assert t.log != s.log ==> |t.log| > |s.log|;
  }

  /** What a line is answered with whose command is not due: the code says so, and the
      state is as before. */
  lemma NotDue(s: State, input: Input, e: Surroundings)
    ensures input.cmd == "@login" && s.status != 1 ==> Next(s, input, e) == (s, Code(1))
    ensures input.cmd == "@connect" && (s.status != 0 || !e.found) ==> Next(s, input, e) == (s, Code(-1))
    ensures input.cmd == "@copy_to" && s.status != 2 ==> Next(s, input, e) == (s, Code(-1))
    ensures input.cmd == "@copy_to" && s.status == 2 && ' ' !in input.arg ==> Next(s, input, e) == (s, Crash)
    ensures input.cmd == "@copy_from" ==> Next(s, input, e) == (s, if s.status == 2 then Crash else Code(-1))
    ensures (input.cmd == "" || input.cmd[0] != '@') && s.status != 2 ==> Next(s, input, e) == (s, Code(-1))
    ensures input.cmd != "" && input.cmd[0] == '@'
            && input.cmd !in {"@exit", "@login", "@connect", "@copy_to", "@copy_from"} ==>
              Next(s, input, e) == (s, Code(-1))
  {
    hide Login, TargetOf, TextOf, ReadSaved, AutoLogin;
  }

  /** One more line at the end of a script is one more step from where the script ended,
      unless the loop had ended before. */
  lemma {:induction false} OneMoreLine(s: State, o: Outcome, script: seq<Turn>, turn: Turn)
    ensures var (t, o', n) := Session(s, o, script);
            Session(s, o, script + [turn]) ==
            if Ended(o') then (t, o', n)
            else (Next(t, turn.input, turn.around).0, Next(t, turn.input, turn.around).1, n + 1)
    decreases script
  {
    hide Next;
    if script == [] {
      assert [turn][1..] == [] && [] + [turn] == [turn];
      if !Ended(o) {
        var (t, o') := Next(s, turn.input, turn.around);
        assert Session(t, o', []) == (t, o', 0);
      }
    } else if !Ended(o) {
      var (t, o') := Next(s, script[0].input, script[0].around);
      assert (script + [turn])[1..] == script[1..] + [turn];
      OneMoreLine(t, o', script[1..], turn);
    }
  }

  // ---------------------------------------------------------------- the next connection

  /** A login that succeeds, and the next connection of a new client, which reads the file
      that the login left. It reads back the same login, password and keys exactly when the
      line has between 33 and 1023 bytes and no delimiter in the first three; and it asks for
      the previous session exactly for lines of 33 to 1000 bytes, while shorter ones are
      passed over and longer ones run out of a buffer. */
  lemma LoginThenReconnect(s: State, login: string, password: string, e: Surroundings, next: Surroundings)
    requires s.status == CONNECTED && TextOf(e.reply) == SUCCESS && Terminable(e.reply) && next.found
    requires NoNul(login) && NoNul(password) && NoNul(s.user.key) && NoNul(s.user.iv)
    requires Printable(LOGIN_PREFIX + login + "#" + password)
    ensures var (t, o) := Next(s, Input("@login", login + "#" + password), e);
            var (u, o') := Next(Initial(t.file), Input("@connect", ""), next);
            var line := SavedLine(login + "#" + password, s.user.key, s.user.iv);
            var saved := Saved(login, password, s.user.key, s.user.iv + "\n");
            && t.status == LOGGED_IN && o == Code(1)
            && (t.user == s.user.(login := login, password := password) <==> '#' !in login)
            && (ReadSaved(t.file) == Previous(saved)
                <==> 32 < |line| < 1024 && '#' !in login && '#' !in password && '#' !in s.user.key)
            && (ReadSaved(t.file) == Previous(saved) ==>
                  u.user == User(login, password, next.key, next.iv, saved.key, saved.iv))
            && (Sent(SessionRequest) in u.log <==> 32 < |line| <= 1000)
            && (o' == Crash <==> |line| > 1000 || (|line| > 32 && |next.reply| >= 1024))
  {
    hide ReadSaved, SavedLine, SplitLine, SessionText, IndexOf, TextOf;
    var line := SavedLine(login + "#" + password, s.user.key, s.user.iv);
    var logPas := login + "#" + password;
    assert LOGIN_PREFIX + logPas == LOGIN_PREFIX + login + "#" + password;
    CutAtHash(login, password);
    SavedRoundTrip(login, password, s.user.key, s.user.iv);
    LineIsClean(login, password, s.user.key, s.user.iv);
    ReadWhole(line);
    LineSplits(login, password, s.user.key, s.user.iv);
    var u := Next(Initial(line), Input("@connect", ""), next).0;
    assert u.log == [] || u.log[0] == Sent(SessionRequest);
  }

  /** The cut of the argument at its first delimiter. */
  lemma CutAtHash(login: string, password: string)
    ensures var logPas := login + "#" + password; var i := IndexOf(logPas, '#', 0);
            && i < |logPas|
            && (logPas[..i] == login && logPas[i + 1..] == password <==> '#' !in login)
  {
    hide IndexOf;
    var logPas := login + "#" + password;
    var i := IndexOf(logPas, '#', 0);
    IndexOfFirst(logPas, '#', 0, i);
    assert logPas[|login|] == '#' && logPas[..|login|] == login && logPas[|login| + 1..] == password;
    if '#' in login {
      assert i < |login|;
    }
  }

  lemma LineIsClean(login: string, password: string, key: string, iv: string)
    requires NoNul(login) && NoNul(password) && NoNul(key) && NoNul(iv)
    ensures NoNul(SavedLine(login + "#" + password, key, iv))
  {
  }

  /** A saved line always splits, if not at the places meant, and its parts make it up again. */
  lemma LineSplits(login: string, password: string, key: string, iv: string)
    ensures var line := SavedLine(login + "#" + password, key, iv); var r := SplitLine(line);
            r.Previous? && |SessionText(r.saved)| == |SESSION_PREFIX| + |line| + 1
  {
    hide IndexOf;
    var line := SavedLine(login + "#" + password, key, iv);
    var a := |login|;
    var b := a + 1 + |password|;
    var c := b + 1 + |key|;
    assert line[a] == line[b] == line[c] == '#';
    var p := IndexOf(line, '#', 0);
    IndexOfFirst(line, '#', 0, p);
    var q := IndexOf(line, '#', p + 1);
    IndexOfFirst(line, '#', p + 1, q);
    IndexOfFirst(line, '#', q + 1, IndexOf(line, '#', q + 1));
  }

  // ---------------------------------------------------------------- the client object

  class Client {
    var status: nat
    var user: User
    var file: string
    ghost var log: seq<Entry>

    constructor (file: string)
      ensures Now() == Initial(file)
    {
      status, user := DISCONNECTED, User("", "", "", "", "", "");
      this.file := file;
      log := [];
    }

    ghost function Now(): State
      reads this
    {
      State(status, user, file, log)
    }

    method CommandConnect(e: Surroundings) returns (o: Outcome)
      modifies this
      ensures (Now(), o) == Connect(old(Now()), e)
    {
      hide ReadSaved, FirstRead, Padded, SessionText, CutInPlace, AutoLogin;
      status := if e.found then CONNECTED else DISCONNECTED;
      if status == DISCONNECTED {
        return Code(-1);
      }
      user := user.(key := e.key, iv := e.iv);
      var buf := new char[OLD_COMMAND_LENGTH](_ => '\0');
      assert buf[..] == Zeros(OLD_COMMAND_LENGTH);
      var reading := CheckForOldKeys(buf, file);
      match reading {
        case NoSession => o := Code(status);
        case NullSearch => o := Crash;
        case Unterminated => o := Crash;
        case Previous(saved) =>
          user := WithSaved(user, saved);
          o := AutoLoginNow(saved, e);
      }
    }

    method AutoLoginNow(saved: Saved, e: Surroundings) returns (o: Outcome)
      modifies this
      ensures (Now(), o) == AutoLogin(old(Now()), saved, e)
    {
      hide SessionText, TextOf;
      if !Printable(SessionText(saved)) {
        return Crash;
      }
      log := log + [Sent(SessionRequest)];
      if !Terminable(e.reply) {
        return Crash;
      }
      log := log + [Heard(SessionRequest, TextOf(e.reply))];
      assert log == old(log) + [Sent(SessionRequest), Heard(SessionRequest, TextOf(e.reply))];
      if TextOf(e.reply) == SUCCESS {
        status := LOGGED_IN;
        o := Code(1);
      } else {
        o := Code(2);
      }
    }

    /** The argument is cut in place at its first delimiter, after it was saved whole. */
    method CommandLogin(logPas: string, e: Surroundings) returns (o: Outcome)
      modifies this
      ensures (Now(), o) == Login(old(Now()), logPas, e)
    {
      hide TextOf, SavedLine, IndexOf;
      if !Printable(LOGIN_PREFIX + logPas) {
        return Crash;
      }
      log := log + [Sent(LoginRequest)];
      if !Terminable(e.reply) {
        return Crash;
      }
      log := log + [Heard(LoginRequest, TextOf(e.reply))];
      assert log == old(log) + [Sent(LoginRequest), Heard(LoginRequest, TextOf(e.reply))];
      if TextOf(e.reply) != SUCCESS {
        return Code(2);
      }
      status := LOGGED_IN;
      file := SavedLine(logPas, user.key, user.iv);
      var border := IndexOf(logPas, '#', 0);
      if border == |logPas| {
        return Crash;
      }
      user := user.(login := logPas[..border], password := logPas[border + 1..]);
      o := Code(1);
    }

    method DoTask(input: Input, e: Surroundings) returns (o: Outcome)
      modifies this
      ensures (Now(), o) == Next(old(Now()), input, e)
    {
      hide Connect, Login, TargetOf, TextOf;
      if input.cmd == "@exit" {
        log := log + [Sent(Goodbye)];
        return Code(0);
      } else if input.cmd == "@login" {
        if status == CONNECTED {
          o := CommandLogin(input.arg, e);
          return;
        }
        return Code(1);
      } else if input.cmd == "@connect" {
        if status == DISCONNECTED {
          o := CommandConnect(e);
          return;
        }
      } else if input.cmd == "@copy_to" {
        if status == LOGGED_IN {
          if ' ' !in input.arg || !Printable(COPY_PREFIX + TargetOf(input.arg)) {
            return Crash;
          }
          log := log + [Sent(CopyRequest), Heard(CopyRequest, TextOf(e.reply))];
          return Code(1);
        }
      } else if input.cmd == "@copy_from" {
        if status == LOGGED_IN {
          return Crash;
        }
      } else if input.cmd != "" && input.cmd[0] == '@' {
        // unknown command
      } else if status == LOGGED_IN {
        if !Printable(EXEC_PREFIX + input.cmd + " " + input.arg) {
          return Crash;
        }
        log := log + [Sent(ExecRequest), Heard(ExecRequest, TextOf(e.reply))];
        return Code(1);
      }
      o := Code(-1);
    }

    /** The loop of `main`. */
    method PromptLoop(script: seq<Turn>) returns (o: Outcome, taken: nat)
      modifies this
      ensures (Now(), o, taken) == Session(old(Now()), Code(1), script)
    {
      hide Next;
      o, taken := Code(1), 0;
      assert script[0..] == script;
      while !Ended(o) && taken < |script|
        invariant taken <= |script|
        invariant Session(old(Now()), Code(1), script) == Later(Session(Now(), o, script[taken..]), taken)
        decreases |script| - taken
      {
        assert script[taken..][0] == script[taken] && script[taken..][1..] == script[taken + 1..];
        o := DoTask(script[taken].input, script[taken].around);
        taken := taken + 1;
      }
    }
  }

  ghost function Later(r: (State, Outcome, nat), taken: nat): (State, Outcome, nat) {
    (r.0, r.1, r.2 + taken)
  }
}
