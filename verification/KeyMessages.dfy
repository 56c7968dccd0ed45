/** The two texts of the key exchange and the code of both `Preparing_numeral_keys`
    functions that writes and re-reads them.
 */
module KeyMessages {
  import opened CText
  import opened ModularPower
  import opened KeyDerivation

  const PUBLIC_KEY_P: nat := 20999999
  const PUBLIC_KEY_G: nat := 7

  const GREETING_HEAD := "@You are not alone!"
  const REPLY_HEAD := "@Secret info"

  /** `"@You are not alone!:%d#%d#%zu#%zu\n"` */
  function Greeting(p: nat, g: nat, a1: nat, a2: nat): string {
    GREETING_HEAD + ":" + Joined(Decimal(p), Joined(Decimal(g), Joined(Decimal(a1), Decimal(a2) + "\n")))
  }

  function Joined(field: string, rest: string): string { field + ['#'] + rest }

  /** `"@Secret info:%zu:%zu"` */
  function Reply(b1: nat, b2: nat): string {
    REPLY_HEAD + ":" + Decimal(b1) + ":" + Decimal(b2)
  }

  /** The two texts as they are sent. */
  lemma TextsSent(a1: nat, a2: nat, b1: nat, b2: nat)
    ensures Greeting(PUBLIC_KEY_P, PUBLIC_KEY_G, a1, a2)
         == "@You are not alone!:20999999#7#" + Decimal(a1) + "#" + Decimal(a2) + "\n"
    ensures Reply(b1, b2) == "@Secret info:" + Decimal(b1) + ":" + Decimal(b2)
  {
    hide Decimal, Joined;
    GreetingSent(Decimal(a1), Decimal(a2));
    PrintedParameters();
    assert REPLY_HEAD + ":" == "@Secret info:";
  }

  lemma GreetingSent(a: string, b: string)
    ensures GREETING_HEAD + ":" + Joined("20999999", Joined("7", Joined(a, b + "\n")))
         == "@You are not alone!:20999999#7#" + a + "#" + b + "\n"
  {
    hide Joined;
    FlatFields(GREETING_HEAD + ":", "20999999", "7", a, b);
    assert GREETING_HEAD + ":" + "20999999" + "#" + "7" + "#" == "@You are not alone!:20999999#7#";
  }

  lemma FlatFields(head: string, p: string, g: string, a: string, b: string)
    ensures head + Joined(p, Joined(g, Joined(a, b + "\n"))) == (head + p + "#" + g + "#") + a + "#" + b + "\n"
  {
  }

  lemma PrintedParameters()
    ensures Decimal(PUBLIC_KEY_P) == "20999999" && Decimal(PUBLIC_KEY_G) == "7"
  {
    assert Decimal(2) == "2";
    OneMoreDigit(2, 0, "2");
    OneMoreDigit(20, 9, "20");
    OneMoreDigit(209, 9, "209");
    OneMoreDigit(2099, 9, "2099");
    OneMoreDigit(20999, 9, "20999");
    OneMoreDigit(209999, 9, "209999");
    OneMoreDigit(2099999, 9, "2099999");
    hide Decimal;
  }

  lemma OneMoreDigit(n: nat, d: nat, s: string)
    requires n > 0 && d < 10 && Decimal(n) == s
    ensures Decimal(10 * n + d) == s + ["0123456789"[d]]
  {
    assert (10 * n + d) / 10 == n && (10 * n + d) % 10 == d;
  }

  /** An `int` assigned to a `size_t`. */
  function Size(v: int): (r: nat)
    requires -0x8000_0000 <= v < 0x8000_0000
    ensures r < WORD && IsSize(r)
  {
    if v < 0 then v + WORD else v
  }

  /** The values of a `size_t` that come from an `int`. */
  predicate IsSize(n: nat) { n < 0x8000_0000 || WORD - 0x8000_0000 <= n < WORD }

  function ReadNumber(buf: string, at: nat): (r: nat)
    requires at <= |buf|
    ensures r < WORD && IsSize(r)
  {
    Size(Atoi(CStr(buf, at)))
  }

  datatype Fields = Fields(p: nat, g: nat, a1: nat, a2: nat)

  /** The client's `strchr` chain over its receive buffer. `None` where a missing delimiter
      makes the code search from a null pointer. */
  function ReadGreeting(buf: string): (r: Option<Fields>)
    requires |buf| > 0
    ensures r.Some? ==> r.value.p < WORD && IsSize(r.value.p)
  {
    match StrChr(buf, 1, ':')
    case None => None
    case Some(atP) =>
      match StrChr(buf, atP + 1, '#')
      case None => None
      case Some(atG) =>
        match StrChr(buf, atG + 1, '#')
        case None => None
        case Some(atA1) =>
          match StrChr(buf, atA1 + 1, '#')
          case None => None
          case Some(atA2) =>
            Some(Fields(ReadNumber(buf, atP + 1), ReadNumber(buf, atG + 1),
                        ReadNumber(buf, atA1 + 1), ReadNumber(buf, atA2 + 1)))
  }

  function ReadReply(buf: string): Option<(nat, nat)>
    requires |buf| > 0
  {
    match StrChr(buf, 1, ':')
    case None => None
    case Some(at1) =>
      match StrChr(buf, at1 + 1, ':')
      case None => None
      case Some(at2) => Some((ReadNumber(buf, at1 + 1), ReadNumber(buf, at2 + 1)))
  }

  // ---------------------------------------------------------------- round trips

  /** One link of the chain: a search that starts where `mid` begins stops at its delimiter. */
  lemma FieldAt(m: string, size: nat, at: nat, mid: string, c: char, tail: string)
    requires |m| < size && '\0' !in m && c != '\0'
    requires at <= |m| && m[at..] == mid + [c] + tail && c !in mid
    ensures at + |mid| < |m| && m[at + |mid| + 1..] == tail
    ensures StrChr(Padded(m, size), at, c) == Some(at + |mid|)
    ensures CStr(Padded(m, size), at + |mid| + 1) == tail
  {
    hide IndexOf;
    var i := at + |mid|;
    FieldIn(m, at, mid, c, tail);
    StrChrInPadded(m, size, at, c);
    StrChrInPadded(m, size, i + 1, c);
    assert Padded(m, size)[i + 1..|m|] == m[i + 1..];
  }

  /** A printed `size_t` comes back from `atoi` unchanged exactly when it is below 2^31
      (or is 2^64 - 1, which saturates to -1 and widens back). */
  lemma NumberSurvives(n: nat, rest: string)
    requires n < WORD
    requires rest == "" || !IsDigit(rest[0])
    ensures Size(Atoi(Decimal(n) + rest)) == n <==> (n < 0x8000_0000 || n == WORD - 1)
  {
    AtoiOfDecimal(n, rest);
    Widened(n);
  }

  lemma Widened(n: nat)
    requires n < WORD
    ensures Size(ToInt32(ClampLong(n))) == n <==> (n < 0x8000_0000 || n == WORD - 1)
  {
    if n > 0x7FFF_FFFF_FFFF_FFFF {
      assert ToInt32(0x7FFF_FFFF_FFFF_FFFF) == -1;
    }
  }

  predicate Survives(n: nat) { n < 0x8000_0000 || n == WORD - 1 }

  lemma GreetingIsShort(p: nat, g: nat, a1: nat, a2: nat)
    requires p < WORD && g < WORD && a1 < WORD && a2 < WORD
    ensures 0 < |Greeting(p, g, a1, a2)| < MAX_COMMAND_LENGTH
    ensures '\0' !in Greeting(p, g, a1, a2)
  {
    hide Decimal;
    WordPrints(p);
    WordPrints(g);
    WordPrints(a1);
    WordPrints(a2);
    DecimalHasNo(p, '\0');
    DecimalHasNo(g, '\0');
    DecimalHasNo(a1, '\0');
    DecimalHasNo(a2, '\0');
  }

  lemma ReplyIsShort(b1: nat, b2: nat)
    requires b1 < WORD && b2 < WORD
    ensures 0 < |Reply(b1, b2)| < MAX_COMMAND_LENGTH
    ensures '\0' !in Reply(b1, b2)
  {
    hide Decimal;
    WordPrints(b1);
    WordPrints(b2);
    DecimalHasNo(b1, '\0');
    DecimalHasNo(b2, '\0');
  }

  /** The client recovers P, G, A1 and A2 from the server's text, exactly when each of
      them is a value `atoi` can carry. */
  lemma GreetingRoundTrip(p: nat, g: nat, a1: nat, a2: nat)
    requires p < WORD && g < WORD && a1 < WORD && a2 < WORD
    ensures 0 < |Greeting(p, g, a1, a2)| < MAX_COMMAND_LENGTH
    ensures ReadGreeting(Padded(Greeting(p, g, a1, a2), MAX_COMMAND_LENGTH)) == Some(Fields(p, g, a1, a2))
       <==> Survives(p) && Survives(g) && Survives(a1) && Survives(a2)
  {
    hide ReadGreeting, Atoi, Decimal, Padded;
    GreetingIsShort(p, g, a1, a2);
    DecimalHasNo(p, '#');
    DecimalHasNo(g, '#');
    DecimalHasNo(a1, '#');
    var last := Decimal(a2) + "\n";
    FourLinks(Greeting(p, g, a1, a2), MAX_COMMAND_LENGTH, Decimal(p), Decimal(g), Decimal(a1), last);
    DelimitedNumber(p, Joined(Decimal(g), Joined(Decimal(a1), last)));
    DelimitedNumber(g, Joined(Decimal(a1), last));
    DelimitedNumber(a1, last);
    NumberSurvives(a2, "\n");
  }

  lemma DelimitedNumber(n: nat, rest: string)
    requires n < WORD
    ensures Size(Atoi(Joined(Decimal(n), rest))) == n <==> Survives(n)
  {
    NumberSurvives(n, "#" + rest);
    assert Joined(Decimal(n), rest) == Decimal(n) + ("#" + rest);
  }

  /** The whole chain, on any four fields of which the first three hold no '#'. */
  lemma FourLinks(m: string, size: nat, f1: string, f2: string, f3: string, f4: string)
    requires |m| < size && '\0' !in m
    requires m == GREETING_HEAD + ":" + Joined(f1, Joined(f2, Joined(f3, f4)))
    requires '#' !in f1 && '#' !in f2 && '#' !in f3
    ensures ReadGreeting(Padded(m, size))
         == Some(Fields(Size(Atoi(Joined(f1, Joined(f2, Joined(f3, f4))))), Size(Atoi(Joined(f2, Joined(f3, f4)))),
                        Size(Atoi(Joined(f3, f4))), Size(Atoi(f4))))
  {
    hide Atoi, StrChr, CStr, ReadGreeting, Padded;
    var t3 := Joined(f3, f4);
    var t2 := Joined(f2, t3);
    var t1 := Joined(f1, t2);
    assert m[1..] == GREETING_HEAD[1..] + [':'] + t1;
    FieldAt(m, size, 1, GREETING_HEAD[1..], ':', t1);
    var p1 := |GREETING_HEAD|;
    ThreeLinks(m, size, p1, f1, t2, f2, t3, f3, f4);
    var p2 := p1 + |f1| + 1;
    var p3 := p2 + |f2| + 1;
    FieldsRead(Padded(m, size), p1, p2, p3, p3 + |f3| + 1, t1, t2, t3, f4);
  }

  lemma ThreeLinks(m: string, size: nat, p: nat, f1: string, t1: string, f2: string, t2: string, f3: string, t3: string)
    requires p < |m| < size && '\0' !in m
    requires m[p + 1..] == f1 + ['#'] + t1 && t1 == f2 + ['#'] + t2 && t2 == f3 + ['#'] + t3
    requires '#' !in f1 && '#' !in f2 && '#' !in f3
    ensures var i := p + |f1| + 1; var j := i + |f2| + 1; var k := j + |f3| + 1;
            && k < |m|
            && StrChr(Padded(m, size), p + 1, '#') == Some(i) && CStr(Padded(m, size), i + 1) == t1
            && StrChr(Padded(m, size), i + 1, '#') == Some(j) && CStr(Padded(m, size), j + 1) == t2
            && StrChr(Padded(m, size), j + 1, '#') == Some(k) && CStr(Padded(m, size), k + 1) == t3
  {
    hide StrChr, CStr, Padded;
    FieldAt(m, size, p + 1, f1, '#', t1);
    var i := p + |f1| + 1;
    FieldAt(m, size, i + 1, f2, '#', t2);
    FieldAt(m, size, i + |f2| + 2, f3, '#', t3);
  }

  /** Four delimiters found, four numbers read. */
  lemma FieldsRead(buf: string, p1: nat, p2: nat, p3: nat, p4: nat, t1: string, t2: string, t3: string, t4: string)
    requires 0 < |buf| && p1 < p2 < p3 < p4 < |buf|
    requires StrChr(buf, 1, ':') == Some(p1) && CStr(buf, p1 + 1) == t1
    requires StrChr(buf, p1 + 1, '#') == Some(p2) && CStr(buf, p2 + 1) == t2
    requires StrChr(buf, p2 + 1, '#') == Some(p3) && CStr(buf, p3 + 1) == t3
    requires StrChr(buf, p3 + 1, '#') == Some(p4) && CStr(buf, p4 + 1) == t4
    ensures ReadGreeting(buf) == Some(Fields(Size(Atoi(t1)), Size(Atoi(t2)), Size(Atoi(t3)), Size(Atoi(t4))))
  {
    hide Atoi, StrChr, CStr;
  }

  /** The server recovers B1 and B2 from the client's text, under the same condition. */
  lemma ReplyRoundTrip(b1: nat, b2: nat)
    requires b1 < WORD && b2 < WORD
    ensures 0 < |Reply(b1, b2)| < MAX_COMMAND_LENGTH
    ensures ReadReply(Padded(Reply(b1, b2), MAX_COMMAND_LENGTH)) == Some((b1, b2))
       <==> Survives(b1) && Survives(b2)
  {
    hide ReadReply, Atoi, Decimal, Padded;
    ReplyIsShort(b1, b2);
    DecimalHasNo(b1, ':');
    TwoLinks(Reply(b1, b2), MAX_COMMAND_LENGTH, Decimal(b1), Decimal(b2));
    NumberSurvives(b1, ":" + Decimal(b2));
    NumberSurvives(b2, "");
    assert Decimal(b2) + "" == Decimal(b2);
  }

  lemma TwoLinks(m: string, size: nat, f1: string, f2: string)
    requires |m| < size && '\0' !in m
    requires m == REPLY_HEAD + ":" + f1 + ":" + f2 && ':' !in f1
    ensures ReadReply(Padded(m, size)) == Some((Size(Atoi(f1 + (":" + f2))), Size(Atoi(f2))))
  {
    hide Atoi, StrChr, CStr, Padded;
    var tail := f1 + (":" + f2);
    assert m[1..] == REPLY_HEAD[1..] + ":" + tail;
    FieldAt(m, size, 1, REPLY_HEAD[1..], ':', tail);
    assert tail == f1 + ":" + f2;
    FieldAt(m, size, |REPLY_HEAD| + 1, f1, ':', f2);
  }

  // ---------------------------------------------------------------- the two computations

  /** A call of `Speed_degree_with_mod` on arbitrary arguments; `None` is the division by
      zero that a modulus of 0 causes as soon as there is anything to reduce. */
  function WordPower(g: nat, x: nat, p: nat): (r: Option<nat>)
    requires p < WORD
    ensures r.Some? ==> r.value < WORD
  {
    if x == 0 then Some(1)
    else if p == 0 then None
    else Some(WordSpeed(g, x, p).value)
  }

  /** The modulus that the client reads is an `int`, widened: of such moduli its power is
      right, for every base below and every exponent, exactly for those of at least 2 that
      were not negative. */
  lemma ReadPowersRight(buf: string)
    requires |buf| > 0
    ensures var r := ReadGreeting(buf); r.Some? ==>
              (r.value.p > 0 && PowersRight(r.value.p) <==> 2 <= r.value.p < 0x8000_0000)
  {
    hide PowersRight, ReadGreeting;
    var r := ReadGreeting(buf);
    if r.Some? && r.value.p > 0 {
      PowersRightIff(r.value.p);
      if r.value.p >= 0x8000_0000 {
        LargeRemainder(r.value.p);
      }
    }
  }

  lemma LargeRemainder(p: nat)
    requires WORD - 0x8000_0000 <= p < WORD
    ensures WORD % p == WORD - p > 0
  {
    UniqueRemainder(WORD, p, 1, WORD - p);
  }

  function NegativeGreeting(g: nat, a1: nat, a2: nat): string {
    GREETING_HEAD + ":" + Joined("-1", Joined(Decimal(g), Joined(Decimal(a1), Decimal(a2) + "\n")))
  }

  /** And negative ones do arrive: from a greeting whose P field is "-1" the client reads
      2^64 - 1, with which its powers are not right. */
  lemma NegativeModulus(g: nat, a1: nat, a2: nat)
    requires g < WORD && a1 < WORD && a2 < WORD
    ensures var m := NegativeGreeting(g, a1, a2);
            && 0 < |m| < MAX_COMMAND_LENGTH && '\0' !in m
            && var r := ReadGreeting(Padded(m, MAX_COMMAND_LENGTH));
               r.Some? && r.value.p == WORD - 1 && !PowersRight(WORD - 1)
  {
    hide ReadGreeting, PowersRight, Atoi, Decimal, Padded;
    DecimalHasNo(g, '#');
    DecimalHasNo(a1, '#');
    var last := Decimal(a2) + "\n";
    var rest := Joined(Decimal(g), Joined(Decimal(a1), last));
    NegativeIsShort(g, a1, a2);
    FourLinks(NegativeGreeting(g, a1, a2), MAX_COMMAND_LENGTH, "-1", Decimal(g), Decimal(a1), last);
    AtoiMinusOne("#" + rest);
    assert Joined("-1", rest) == "-1" + ("#" + rest);
    PowersRightIff(WORD - 1);
    LargeRemainder(WORD - 1);
  }

  lemma NegativeIsShort(g: nat, a1: nat, a2: nat)
    requires g < WORD && a1 < WORD && a2 < WORD
    ensures 0 < |NegativeGreeting(g, a1, a2)| < MAX_COMMAND_LENGTH
    ensures '\0' !in NegativeGreeting(g, a1, a2)
  {
    hide Decimal;
    WordPrints(g);
    WordPrints(a1);
    WordPrints(a2);
    DecimalHasNo(g, '\0');
    DecimalHasNo(a1, '\0');
    DecimalHasNo(a2, '\0');
  }

  lemma AtoiMinusOne(rest: string)
    requires rest == "" || !IsDigit(rest[0])
    ensures Atoi("-1" + rest) == -1
  {
    var s := "-1" + rest;
    var d := "1" + rest;
    assert s[1..] == d;
    DigitRunOf("1", rest);
    assert d[..1] == "1" && Value("1") == 1 by {
      assert "1"[..0] == "" && Value("") == 0;
    }
    hide DigitRun, Value;
  }

  datatype Agreed = Agreed(k1: nat, k2: nat)

  /** What the client makes of its receive buffer: the text it answers and its numbers. */
  function ClientComputes(buf: string, b1: nat, b2: nat): (r: Option<(string, Agreed)>)
    requires |buf| > 0
    ensures r.Some? ==> r.value.1.k1 < WORD && r.value.1.k2 < WORD
  {
    match ReadGreeting(buf)
    case None => None
    case Some(f) =>
      match (WordPower(f.g, b1, f.p), WordPower(f.g, b2, f.p), WordPower(f.a1, b1, f.p), WordPower(f.a2, b2, f.p))
      case (Some(pub1), Some(pub2), Some(k1), Some(k2)) => Some((Reply(pub1, pub2), Agreed(k1, k2)))
      case _ => None
  }

  /** What the server makes of its receive buffer. */
  function ServerComputes(buf: string, a1: nat, a2: nat): (r: Option<Agreed>)
    requires |buf| > 0
    ensures r.Some? ==> r.value.k1 < WORD && r.value.k2 < WORD
  {
    match ReadReply(buf)
    case None => None
    case Some((b1, b2)) =>
      match (WordPower(b1, a1, PUBLIC_KEY_P), WordPower(b2, a2, PUBLIC_KEY_P))
      case (Some(k1), Some(k2)) => Some(Agreed(k1, k2))
      case _ => None
  }

  /** When a side comes to no result: the server exactly without a second ':' behind the
      first character, the client exactly without the four delimiters in their order, or
      with a modulus of 0 and a secret to raise to. */
  lemma NoResult(m: string, a1: nat, a2: nat)
    requires 0 < |m| < MAX_COMMAND_LENGTH && '\0' !in m
    ensures var buf := Padded(m, MAX_COMMAND_LENGTH);
            && (ServerComputes(buf, a1, a2).Some? <==> exists i, j :: 1 <= i < j < |m| && m[i] == m[j] == ':')
            && (ClientComputes(buf, a1, a2).None? <==>
                  ReadGreeting(buf).None? || (ReadGreeting(buf).value.p == 0 && (a1 > 0 || a2 > 0)))
            && (ReadGreeting(buf).Some? <==>
                  exists i, j, k, l :: 1 <= i < j < k < l < |m| && m[i] == ':' && m[j] == m[k] == m[l] == '#')
  {
    hide ReadGreeting, ReadReply, WordSpeed, Padded;
    ReplyDelimiters(m);
    GreetingDelimiters(m);
  }

  /** Where a search from `at` in the receive buffer ends. */
  lemma FirstFrom(m: string, at: nat, c: char)
    requires |m| < MAX_COMMAND_LENGTH && '\0' !in m && at <= |m| && c != '\0'
    ensures var r := StrChr(Padded(m, MAX_COMMAND_LENGTH), at, c);
            && (r.Some? ==> at <= r.value < |m| && m[r.value] == c)
            && (forall i :: at <= i < |m| && m[i] == c ==> r.Some? && r.value <= i)
  {
    hide IndexOf, StrChr, Padded;
    StrChrInPadded(m, MAX_COMMAND_LENGTH, at, c);
    var i := IndexOf(m, c, at);
    IndexOfFirst(m, c, at, i);
  }

  lemma ReplyDelimiters(m: string)
    requires 0 < |m| < MAX_COMMAND_LENGTH && '\0' !in m
    ensures ReadReply(Padded(m, MAX_COMMAND_LENGTH)).Some? <==> exists i, j :: 1 <= i < j < |m| && m[i] == m[j] == ':'
  {
    hide StrChr, Padded, ReadNumber;
    var buf := Padded(m, MAX_COMMAND_LENGTH);
    FirstFrom(m, 1, ':');
    var r := StrChr(buf, 1, ':');
    if r.Some? {
      FirstFrom(m, r.value + 1, ':');
    }
  }

  lemma GreetingDelimiters(m: string)
    requires 0 < |m| < MAX_COMMAND_LENGTH && '\0' !in m
    ensures ReadGreeting(Padded(m, MAX_COMMAND_LENGTH)).Some? <==>
            exists i, j, k, l :: 1 <= i < j < k < l < |m| && m[i] == ':' && m[j] == m[k] == m[l] == '#'
  {
    hide StrChr, Padded, ReadNumber;
    var buf := Padded(m, MAX_COMMAND_LENGTH);
    FirstFrom(m, 1, ':');
    var r1 := StrChr(buf, 1, ':');
    if r1.Some? {
      FirstFrom(m, r1.value + 1, '#');
      var r2 := StrChr(buf, r1.value + 1, '#');
      if r2.Some? {
        FirstFrom(m, r2.value + 1, '#');
        var r3 := StrChr(buf, r2.value + 1, '#');
        if r3.Some? {
          FirstFrom(m, r3.value + 1, '#');
        }
      }
    }
  }

  function Public(x: nat): nat { Speed(PUBLIC_KEY_G, x, PUBLIC_KEY_P) }

  /** Every power an honest side takes is the modular power, below P, with no wrap. */
  lemma HonestPower(g: nat, x: nat)
    requires g < PUBLIC_KEY_P
    ensures WordPower(g, x, PUBLIC_KEY_P) == Some(Speed(g, x, PUBLIC_KEY_P))
    ensures Speed(g, x, PUBLIC_KEY_P) == Power(g, x) % PUBLIC_KEY_P
    ensures x > 0 ==> WordSpeed(g, x, PUBLIC_KEY_P).peak < WORD
  {
    WordSpeedExact(g, x, PUBLIC_KEY_P);
  }

  /** From an honest greeting the client answers its own public values and computes
      g^(a*b) mod P twice. */
  lemma HonestClient(a1: nat, a2: nat, b1: nat, b2: nat)
    ensures var greeting := Greeting(PUBLIC_KEY_P, PUBLIC_KEY_G, Public(a1), Public(a2));
            && 0 < |greeting| < MAX_COMMAND_LENGTH
            && ClientComputes(Padded(greeting, MAX_COMMAND_LENGTH), b1, b2)
            == Some((Reply(Public(b1), Public(b2)), Shared(a1, a2, b1, b2)))
  {
    hide ReadGreeting, Greeting, Reply, Padded;
    PublicIsBelow(a1);
    PublicIsBelow(a2);
    GreetingRoundTrip(PUBLIC_KEY_P, PUBLIC_KEY_G, Public(a1), Public(a2));
    HonestPower(PUBLIC_KEY_G, b1);
    HonestPower(PUBLIC_KEY_G, b2);
    HonestPower(Public(a1), b1);
    HonestPower(Public(a2), b2);
    Agreement(PUBLIC_KEY_G, a1, b1, PUBLIC_KEY_P);
    Agreement(PUBLIC_KEY_G, a2, b2, PUBLIC_KEY_P);
  }

  /** From the honest reply the server computes the very same numbers. */
  lemma HonestServer(a1: nat, a2: nat, b1: nat, b2: nat)
    ensures var reply := Reply(Public(b1), Public(b2));
            && 0 < |reply| < MAX_COMMAND_LENGTH
            && ServerComputes(Padded(reply, MAX_COMMAND_LENGTH), a1, a2) == Some(Shared(a1, a2, b1, b2))
  {
    hide ReadReply, Reply, Padded;
    PublicIsBelow(b1);
    PublicIsBelow(b2);
    ReplyRoundTrip(Public(b1), Public(b2));
    HonestPower(Public(b1), a1);
    HonestPower(Public(b2), a2);
    Agreement(PUBLIC_KEY_G, a1, b1, PUBLIC_KEY_P);
    Agreement(PUBLIC_KEY_G, a2, b2, PUBLIC_KEY_P);
  }

  /** g^(a*b) mod P, for both pairs of secrets. */
  function Shared(a1: nat, a2: nat, b1: nat, b2: nat): Agreed {
    Agreed(Power(PUBLIC_KEY_G, a1 * b1) % PUBLIC_KEY_P, Power(PUBLIC_KEY_G, a2 * b2) % PUBLIC_KEY_P)
  }

  lemma PublicIsBelow(x: nat)
    ensures Public(x) < PUBLIC_KEY_P
  {
    SpeedIsPower(PUBLIC_KEY_G, x, PUBLIC_KEY_P);
  }

  // ---------------------------------------------------------------- the code on its buffers

  /** The server's half up to its send: print the greeting and hand over its text. */
  method ServerGreets(greetings: array<char>, a1: nat, a2: nat) returns (sent: string)
    requires Zeroed(greetings)
    modifies greetings
    ensures sent == Greeting(PUBLIC_KEY_P, PUBLIC_KEY_G, Public(a1), Public(a2))
    ensures |sent| < MAX_COMMAND_LENGTH && greetings[..] == Padded(sent, MAX_COMMAND_LENGTH)
  {
    var pub1 := WordSpeed(PUBLIC_KEY_G, a1, PUBLIC_KEY_P).value;
    var pub2 := WordSpeed(PUBLIC_KEY_G, a2, PUBLIC_KEY_P).value;
    HonestPower(PUBLIC_KEY_G, a1);
    HonestPower(PUBLIC_KEY_G, a2);
    GreetingIsShort(PUBLIC_KEY_P, PUBLIC_KEY_G, pub1, pub2);
    sent := PrintAndTake(greetings, Greeting(PUBLIC_KEY_P, PUBLIC_KEY_G, pub1, pub2));
  }

  /** `sprintf(buf, ...)` followed by sending `strlen(buf)` characters of it. */
  method PrintAndTake(buf: array<char>, text: string) returns (sent: string)
    requires Zeroed(buf) && |text| < MAX_COMMAND_LENGTH && '\0' !in text
    modifies buf
    ensures sent == text && buf[..] == Padded(text, MAX_COMMAND_LENGTH)
  {
    Fill(buf, text);
    StrChrInPadded(text, MAX_COMMAND_LENGTH, 0, ':');
    sent := CStr(buf[..], 0);
  }

  /** The server's half from its receive on. `done` is false when the answer lacks a
      delimiter. */
  method ServerFinishes(clientMessage: array<char>, a1: nat, a2: nat, answer: string)
    returns (k1: nat, k2: nat, done: bool)
    requires Zeroed(clientMessage) && |answer| < MAX_COMMAND_LENGTH
    modifies clientMessage
    ensures clientMessage[..] == Padded(answer, MAX_COMMAND_LENGTH)
    ensures done ==> ServerComputes(clientMessage[..], a1, a2) == Some(Agreed(k1, k2))
    ensures !done ==> ServerComputes(clientMessage[..], a1, a2) == None
  {
    hide StrChr, CStr, ReadNumber;
    Fill(clientMessage, answer);
    k1, k2, done := 0, 0, false;
    var place1 := StrChr(clientMessage[..], 1, ':');
    if place1.Some? {
      var place2 := StrChr(clientMessage[..], place1.value + 1, ':');
      if place2.Some? {
        var b1 := ReadNumber(clientMessage[..], place1.value + 1);
        var b2 := ReadNumber(clientMessage[..], place2.value + 1);
        k1 := WordSpeed(b1, a1, PUBLIC_KEY_P).value;
        k2 := WordSpeed(b2, a2, PUBLIC_KEY_P).value;
        done := true;
      }
    }
  }

  /** The client's half: read the greeting that arrives, compute, answer. */
  method ClientAnswers(adminMessage: array<char>, answer: array<char>, b1: nat, b2: nat, greeting: string)
    returns (sent: string, k1: nat, k2: nat, done: bool)
    requires adminMessage != answer && Zeroed(adminMessage) && Zeroed(answer)
    requires |greeting| < MAX_COMMAND_LENGTH
    modifies adminMessage, answer
    ensures adminMessage[..] == Padded(greeting, MAX_COMMAND_LENGTH)
    ensures done ==> ClientComputes(adminMessage[..], b1, b2) == Some((sent, Agreed(k1, k2)))
    ensures !done ==> ClientComputes(adminMessage[..], b1, b2) == None
  {
    hide Reply, ReadGreeting, WordPower;
    Fill(adminMessage, greeting);
    sent, k1, k2, done := "", 0, 0, false;
    var fields := ReadGreeting(adminMessage[..]);
    if fields.Some? {
      var f := fields.value;
      var pub1, pub2 := WordPower(f.g, b1, f.p), WordPower(f.g, b2, f.p);
      var raised1, raised2 := WordPower(f.a1, b1, f.p), WordPower(f.a2, b2, f.p);
      if pub1.Some? && pub2.Some? && raised1.Some? && raised2.Some? {
        k1, k2, done := raised1.value, raised2.value, true;
        ReplyIsShort(pub1.value, pub2.value);
        sent := PrintAndTake(answer, Reply(pub1.value, pub2.value));
      }
    }
  }
}
