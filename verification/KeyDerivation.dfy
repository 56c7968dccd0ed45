/** `Make_keys`: from two agreed numbers to the AES key and IV buffers. */
module KeyDerivation {
  import opened CText
  import opened ModularPower

  const KEY_CHARS := 32
  const IV_CHARS := 16

  /** What `sprintf` writes: the two numbers in turn, four times. */
  function KeyText(k1: nat, k2: nat): string {
    Repeat4(Decimal(k1), Decimal(k2))
  }

  function Repeat4(u: string, v: string): string {
    u + v + u + v + u + v + u + v
  }

  predicate HasRoom(buf: string, text: string) {
    IndexOf(buf, '\0', 0) + |text| < |buf|
  }

  /** `strcat(buf, text)`: the text and a terminator, written from the first NUL on. */
  function Appended(buf: string, text: string): string
    requires HasRoom(buf, text)
  {
    var e := IndexOf(buf, '\0', 0);
    buf[..e] + text + ['\0'] + buf[e + |text| + 1..]
  }

  /** Everything from `n` on replaced by NUL. */
  function Cut(buf: string, n: nat): string
    requires n <= |buf|
  {
    buf[..n] + Zeros(|buf| - n)
  }

  method StrCat(dest: array<char>, text: string)
    requires HasRoom(dest[..], text)
    modifies dest
    ensures dest[..] == Appended(old(dest[..]), text)
  {
    var e := IndexOf(dest[..], '\0', 0);
    forall i | 0 <= i < |text| {
      dest[e + i] := text[i];
    }
    dest[e + |text|] := '\0';
  }

  method MakeKeys(k1: nat, k2: nat, key: array<char>, iv: array<char>)
    requires key != iv && key.Length == iv.Length == MAX_COMMAND_LENGTH
    requires HasRoom(key[..], KeyText(k1, k2)) && HasRoom(iv[..], KeyText(k2, k1))
    modifies key, iv
    ensures key[..] == Cut(Appended(old(key[..]), KeyText(k1, k2)), KEY_CHARS)
    ensures iv[..] == Cut(Appended(old(iv[..]), KeyText(k2, k1)), IV_CHARS)
  {
    var a := KeyText(k1, k2);
    var b := KeyText(k2, k1);
    StrCat(key, a);
    StrCat(iv, b);
    ghost var wholeKey, wholeIv := key[..], iv[..];
    for i := KEY_CHARS to MAX_COMMAND_LENGTH
      invariant key[..KEY_CHARS] == wholeKey[..KEY_CHARS] && iv[..] == wholeIv
      invariant forall j :: KEY_CHARS <= j < i ==> key[j] == '\0'
    {
      key[i] := '\0';
    }
    assert key[..] == Cut(wholeKey, KEY_CHARS);
    for i := IV_CHARS to MAX_COMMAND_LENGTH
      invariant iv[..IV_CHARS] == wholeIv[..IV_CHARS] && key[..] == Cut(wholeKey, KEY_CHARS)
      invariant forall j :: IV_CHARS <= j < i ==> iv[j] == '\0'
    {
      iv[i] := '\0';
    }
    assert iv[..] == Cut(wholeIv, IV_CHARS);
  }

  // ---------------------------------------------------------------- fresh buffers

  predicate Fits(k1: nat, k2: nat) {
    |KeyText(k1, k2)| < MAX_COMMAND_LENGTH
  }

  /** The contents `MakeKeys` leaves in buffers that `calloc` has just zeroed. */
  function KeyBuffer(k1: nat, k2: nat): (buf: string)
    requires Fits(k1, k2)
    ensures |buf| == MAX_COMMAND_LENGTH
  {
    FreshBufferHasRoom(KeyText(k1, k2));
    Cut(Appended(Zeros(MAX_COMMAND_LENGTH), KeyText(k1, k2)), KEY_CHARS)
  }

  function IvBuffer(k1: nat, k2: nat): (buf: string)
    requires Fits(k2, k1)
    ensures |buf| == MAX_COMMAND_LENGTH
  {
    FreshBufferHasRoom(KeyText(k2, k1));
    Cut(Appended(Zeros(MAX_COMMAND_LENGTH), KeyText(k2, k1)), IV_CHARS)
  }

  lemma FreshBufferHasRoom(text: string)
    requires |text| < MAX_COMMAND_LENGTH
    ensures IndexOf(Zeros(MAX_COMMAND_LENGTH), '\0', 0) == 0
    ensures HasRoom(Zeros(MAX_COMMAND_LENGTH), text)
  {
  }

  function Retained(text: string, limit: nat): string {
    if |text| <= limit then text else text[..limit]
  }

  /** The buffers hold exactly the first 32 and 16 characters of the repeated text,
      followed by NULs. */
  lemma FreshBuffers(k1: nat, k2: nat)
    requires Fits(k1, k2) && Fits(k2, k1)
    ensures KeyBuffer(k1, k2) == Padded(Retained(KeyText(k1, k2), KEY_CHARS), MAX_COMMAND_LENGTH)
    ensures IvBuffer(k1, k2) == Padded(Retained(KeyText(k2, k1), IV_CHARS), MAX_COMMAND_LENGTH)
  {
    FreshBufferHasRoom(KeyText(k1, k2));
    FreshBufferHasRoom(KeyText(k2, k1));
    CutFresh(KeyText(k1, k2), KEY_CHARS);
    CutFresh(KeyText(k2, k1), IV_CHARS);
  }

  lemma CutFresh(text: string, limit: nat)
    requires |text| < MAX_COMMAND_LENGTH && limit <= MAX_COMMAND_LENGTH
    requires HasRoom(Zeros(MAX_COMMAND_LENGTH), text)
    ensures Cut(Appended(Zeros(MAX_COMMAND_LENGTH), text), limit)
         == Padded(Retained(text, limit), MAX_COMMAND_LENGTH)
  {
    var z := Zeros(MAX_COMMAND_LENGTH);
    assert IndexOf(z, '\0', 0) == 0;
    var whole := Appended(z, text);
    assert forall j :: 0 <= j < |text| ==> whole[j] == text[j];
    assert forall j :: |text| <= j < |whole| ==> whole[j] == '\0';
  }

  // ---------------------------------------------------------------- shape of the text

  lemma RepeatedText(u: string, v: string, i: nat)
    requires i < 4 * (|u| + |v|)
    ensures |Repeat4(u, v)| == 4 * (|u| + |v|)
    ensures i < |u| + |v| ==> Repeat4(u, v)[i] == (u + v)[i]
    ensures i >= |u| + |v| ==> Repeat4(u, v)[i] == Repeat4(u, v)[i - |u| - |v|]
  {
    var w := u + v;
    assert Repeat4(u, v) == w + w + w + w;
  }

  /** k1 + B = A + k1: the IV text is the key text seen one number later. */
  lemma Shifted(u: string, v: string)
    ensures u + Repeat4(v, u) == Repeat4(u, v) + u
  {
  }

  lemma BufferChars(k1: nat, k2: nat)
    requires Fits(k1, k2) && Fits(k2, k1)
    ensures forall i :: 0 <= i < KEY_CHARS && i < |KeyText(k1, k2)| ==> KeyBuffer(k1, k2)[i] == KeyText(k1, k2)[i]
    ensures forall i :: 0 <= i < IV_CHARS && i < |KeyText(k2, k1)| ==> IvBuffer(k1, k2)[i] == KeyText(k2, k1)[i]
  {
    FreshBuffers(k1, k2);
    hide KeyBuffer, IvBuffer, KeyText;
  }

  /** The key text repeats with period |k1| + |k2|, and the IV is the key read from
      position |k1| on, wherever both survive the cut. */
  lemma KeyShape(k1: nat, k2: nat)
    requires Fits(k1, k2) && Fits(k2, k1)
    ensures var m, w := |Decimal(k1)|, |Decimal(k1)| + |Decimal(k2)|;
            && (forall i :: 0 <= i && i + w < KEY_CHARS && i + w < 4 * w
                  ==> KeyBuffer(k1, k2)[i + w] == KeyBuffer(k1, k2)[i])
            && (forall j :: 0 <= j < IV_CHARS && j + m < KEY_CHARS && j + m < 4 * w
                  ==> KeyBuffer(k1, k2)[j + m] == IvBuffer(k1, k2)[j])
  {
    hide KeyBuffer, IvBuffer, Decimal, Fits;
    KeyPeriod(k1, k2);
    IvIsShiftedKey(k1, k2);
  }

  lemma KeyPeriod(k1: nat, k2: nat)
    requires Fits(k1, k2) && Fits(k2, k1)
    ensures var w := |Decimal(k1)| + |Decimal(k2)|;
            forall i :: 0 <= i && i + w < KEY_CHARS && i + w < 4 * w
              ==> KeyBuffer(k1, k2)[i + w] == KeyBuffer(k1, k2)[i]
  {
    hide KeyBuffer, Decimal, Fits;
    var w := |Decimal(k1)| + |Decimal(k2)|;
    forall i | 0 <= i && i + w < KEY_CHARS && i + w < 4 * w
      ensures KeyBuffer(k1, k2)[i + w] == KeyBuffer(k1, k2)[i]
    {
      KeyCharRepeats(k1, k2, i);
    }
  }

  lemma KeyCharRepeats(k1: nat, k2: nat, i: nat)
    requires Fits(k1, k2) && Fits(k2, k1)
    requires i + |Decimal(k1)| + |Decimal(k2)| < KEY_CHARS && i < 3 * (|Decimal(k1)| + |Decimal(k2)|)
    ensures KeyBuffer(k1, k2)[i + |Decimal(k1)| + |Decimal(k2)|] == KeyBuffer(k1, k2)[i]
  {
    hide KeyBuffer, Decimal, Repeat4;
    RepeatedText(Decimal(k1), Decimal(k2), i + |Decimal(k1)| + |Decimal(k2)|);
    BufferChars(k1, k2);
  }

  lemma IvIsShiftedKey(k1: nat, k2: nat)
    requires Fits(k1, k2) && Fits(k2, k1)
    ensures var m, w := |Decimal(k1)|, |Decimal(k1)| + |Decimal(k2)|;
            forall j :: 0 <= j < IV_CHARS && j + m < KEY_CHARS && j + m < 4 * w
              ==> KeyBuffer(k1, k2)[j + m] == IvBuffer(k1, k2)[j]
  {
    hide KeyBuffer, IvBuffer, Decimal, Fits;
    var m, w := |Decimal(k1)|, |Decimal(k1)| + |Decimal(k2)|;
    forall j | 0 <= j < IV_CHARS && j + m < KEY_CHARS && j + m < 4 * w
      ensures KeyBuffer(k1, k2)[j + m] == IvBuffer(k1, k2)[j]
    {
      IvCharIsKeyChar(k1, k2, j);
    }
  }

  lemma IvCharIsKeyChar(k1: nat, k2: nat, j: nat)
    requires Fits(k1, k2) && Fits(k2, k1)
    requires j < IV_CHARS && j + |Decimal(k1)| < KEY_CHARS && j + |Decimal(k1)| < 4 * (|Decimal(k1)| + |Decimal(k2)|)
    ensures KeyBuffer(k1, k2)[j + |Decimal(k1)|] == IvBuffer(k1, k2)[j]
  {
    hide KeyBuffer, IvBuffer, Decimal, Repeat4;
    ShiftedText(Decimal(k1), Decimal(k2), j);
    BufferChars(k1, k2);
  }

  lemma TextLength(u: string, v: string)
    ensures |Repeat4(u, v)| == 4 * (|u| + |v|)
  {
  }

  lemma ShiftedText(u: string, v: string, j: nat)
    requires j + |u| < 4 * (|u| + |v|)
    ensures |Repeat4(u, v)| == |Repeat4(v, u)| == 4 * (|u| + |v|)
    ensures Repeat4(u, v)[j + |u|] == Repeat4(v, u)[j]
  {
    Shifted(u, v);
    TextLength(u, v);
    TextLength(v, u);
    hide Repeat4;
    assert (u + Repeat4(v, u))[j + |u|] == Repeat4(v, u)[j];
    assert (Repeat4(u, v) + u)[j + |u|] == Repeat4(u, v)[j + |u|];
  }

  // ---------------------------------------------------------------- injectivity

  function Pow10(n: nat): (r: nat)
    ensures r > 0
  {
    if n == 0 then 1 else 10 * Pow10(n - 1)
  }

  lemma {:induction false} DecimalLength(n: nat, d: nat)
    requires d > 0
    ensures |Decimal(n)| <= d <==> n < Pow10(d)
  {
    if d == 1 {
      assert Pow10(1) == 10;
    } else if n >= 10 {
      DecimalLength(n / 10, d - 1);
    } else {
      Pow10AtLeast10(d);
    }
  }

  lemma {:induction false} Pow10AtLeast10(d: nat)
    requires d > 0
    ensures Pow10(d) >= 10
  {
    if d > 1 { Pow10AtLeast10(d - 1); }
  }

  /** A `size_t` prints in at most 20 digits, so the text always fits its buffer. */
  lemma WordsFit(k1: nat, k2: nat)
    requires k1 < WORD && k2 < WORD
    ensures Fits(k1, k2) && Fits(k2, k1)
  {
    WordPrints(k1);
    WordPrints(k2);
  }

  lemma WordPrints(k: nat)
    requires k < WORD
    ensures |Decimal(k)| <= 20
  {
    assert Pow10(10) == 10_000_000_000;
    assert Pow10(20) == 100_000_000_000_000_000_000;
    DecimalLength(k, 20);
  }

  /** The key buffer determines both numbers, among `size_t` pairs of `m` and `n` digits. */
  ghost predicate KeyDetermines(m: nat, n: nat) {
    forall k1: nat, k2: nat, l1: nat, l2: nat ::
      SamePrintedLengths(k1, k2, l1, l2, m, n) && SameKey(k1, k2, l1, l2) ==> k1 == l1 && k2 == l2
  }

  predicate SamePrintedLengths(k1: nat, k2: nat, l1: nat, l2: nat, m: nat, n: nat) {
    && k1 < WORD && k2 < WORD && l1 < WORD && l2 < WORD
    && |Decimal(k1)| == |Decimal(l1)| == m
    && |Decimal(k2)| == |Decimal(l2)| == n
  }

  predicate SameKey(k1: nat, k2: nat, l1: nat, l2: nat) {
    Fits(k1, k2) && Fits(l1, l2) && KeyBuffer(k1, k2) == KeyBuffer(l1, l2)
  }

  /** Despite the cut at 32 bytes the key is injective on pairs of given digit counts,
      exactly as long as one copy of both numbers fits into the 32 bytes. */
  lemma KeyInjectiveIff(m: nat, n: nat)
    requires 1 <= m <= 20 && 1 <= n <= 20
    ensures KeyDetermines(m, n) <==> m + n <= KEY_CHARS
  {
    if m + n <= KEY_CHARS {
      forall k1: nat, k2: nat, l1: nat, l2: nat |
        SamePrintedLengths(k1, k2, l1, l2, m, n) && SameKey(k1, k2, l1, l2)
        ensures k1 == l1 && k2 == l2
      {
        KeyInjective(k1, k2, l1, l2);
      }
    } else {
      KeyCollision(m, n);
    }
  }

  lemma KeyInjective(k1: nat, k2: nat, l1: nat, l2: nat)
    requires |Decimal(k1)| == |Decimal(l1)| && |Decimal(k2)| == |Decimal(l2)|
    requires |Decimal(k1)| + |Decimal(k2)| <= KEY_CHARS
    requires SameKey(k1, k2, l1, l2)
    ensures k1 == l1 && k2 == l2
  {
    var w, x := Decimal(k1) + Decimal(k2), Decimal(l1) + Decimal(l2);
    BufferChars(k1, k2);
    BufferChars(l1, l2);
    hide KeyBuffer, IvBuffer;
    forall i | 0 <= i < |w|
      ensures w[i] == x[i]
    {
      RepeatedText(Decimal(k1), Decimal(k2), i);
      RepeatedText(Decimal(l1), Decimal(l2), i);
      assert KeyText(k1, k2)[i] == w[i] && KeyText(l1, l2)[i] == x[i];
    }
    assert w == x;
    assert w[..|Decimal(k1)|] == Decimal(k1) && x[..|Decimal(k1)|] == Decimal(l1);
    assert w[|Decimal(k1)|..] == Decimal(k2) && x[|Decimal(k1)|..] == Decimal(l2);
    DecimalInjective(k1, l1);
    DecimalInjective(k2, l2);
  }

  /** Beyond that, two pairs that differ in the very last digit share a key. */
  lemma KeyCollision(m: nat, n: nat)
    requires 1 <= m <= 20 && 1 <= n <= 20 && m + n > KEY_CHARS
    ensures !KeyDetermines(m, n)
  {
    var k1, k2, l2 := Pow10(m - 1), Pow10(n - 1), Pow10(n - 1) + 1;
    TwoNeighbours(n);
    PowerOfTenPrints(m);
    WordsFit(k1, k2);
    WordsFit(k1, l2);
    var u, v, v' := Decimal(k1), Decimal(k2), Decimal(l2);
    FreshBuffers(k1, k2);
    FreshBuffers(k1, l2);
    forall i | 0 <= i < KEY_CHARS
      ensures Repeat4(u, v)[i] == Repeat4(u, v')[i]
    {
      RepeatedText(u, v, i);
      RepeatedText(u, v', i);
      assert i < |u + v| - 1;
      assert i >= |u| ==> v[i - |u|] == v[..n - 1][i - |u|] && v'[i - |u|] == v'[..n - 1][i - |u|];
    }
    assert Retained(KeyText(k1, k2), KEY_CHARS) == Retained(KeyText(k1, l2), KEY_CHARS);
    assert SamePrintedLengths(k1, k2, k1, l2, m, n) && SameKey(k1, k2, k1, l2);
  }

  lemma PowerOfTenPrints(m: nat)
    requires 1 <= m <= 20
    ensures |Decimal(Pow10(m - 1))| == m && Pow10(m - 1) + 1 < WORD
  {
    assert Pow10(10) == 10_000_000_000;
    assert Pow10(19) == 10_000_000_000_000_000_000;
    Pow10Grows(m - 1, 19);
    DecimalLength(Pow10(m - 1), m);
    if m > 1 {
      DecimalLength(Pow10(m - 1), m - 1);
    }
  }

  lemma {:induction false} Pow10Grows(a: nat, b: nat)
    requires a <= b
    ensures Pow10(a) <= Pow10(b)
  {
    if a < b { Pow10Grows(a, b - 1); }
  }

  lemma TwoNeighbours(n: nat)
    requires 2 <= n <= 20
    ensures var k, l := Decimal(Pow10(n - 1)), Decimal(Pow10(n - 1) + 1);
            && |k| == |l| == n && k[..n - 1] == l[..n - 1]
    ensures Pow10(n - 1) + 1 < WORD
  {
    PowerOfTenPrints(n);
    Pow10AtLeast10(n - 1);
    var t := Pow10(n - 2);
    assert Pow10(n - 1) == 10 * t && (10 * t) / 10 == t && (10 * t + 1) / 10 == t;
  }

  /** Numbers below 10^8 have at most 8 digits, so between pairs of such numbers with the
      same digit counts the key always decides. */
  lemma KeyInjectiveBelow10To8(k1: nat, k2: nat, l1: nat, l2: nat)
    requires k1 < 100_000_000 && k2 < 100_000_000
    requires |Decimal(k1)| == |Decimal(l1)| && |Decimal(k2)| == |Decimal(l2)|
    requires SameKey(k1, k2, l1, l2)
    ensures k1 == l1 && k2 == l2
  {
    hide KeyBuffer;
    EightDigits(k1);
    EightDigits(k2);
    KeyInjective(k1, k2, l1, l2);
  }

  lemma EightDigits(k: nat)
    ensures k < 100_000_000 <==> |Decimal(k)| <= 8
  {
    assert Pow10(8) == 100_000_000;
    DecimalLength(k, 8);
  }

  // ---------------------------------------------------------------- which pairs share a key

  function Four(w: string): (r: string)
    ensures |r| == 4 * |w|
  {
    w + w + w + w
  }

  predicate Commute(w: string, x: string) { w + x == x + w }

  /** Without fixed digit counts the key is not injective, and this is exactly by how much:
      two pairs share a key if and only if their concatenated decimals commute, that is,
      are powers of one text, and are equally long or both long enough, with 8 digits, to
      fill the key. */
  lemma SameKeyIff(k1: nat, k2: nat, l1: nat, l2: nat)
    requires |Decimal(k1)| + |Decimal(k2)| + |Decimal(l1)| + |Decimal(l2)| <= KEY_CHARS
    ensures var w, x := Decimal(k1) + Decimal(k2), Decimal(l1) + Decimal(l2);
            SameKey(k1, k2, l1, l2) <==>
              Commute(w, x) && (|w| == |x| || (|w| >= 8 && |x| >= 8))
  {
    hide Commute, Four, Decimal, KeyBuffer, IvBuffer;
    var w, x := Decimal(k1) + Decimal(k2), Decimal(l1) + Decimal(l2);
    KeyIsFour(k1, k2);
    KeyIsFour(l1, l2);
    FourIsDigits(w, KEY_CHARS);
    FourIsDigits(x, KEY_CHARS);
    PaddedInjective(Retained(Four(w), KEY_CHARS), Retained(Four(x), KEY_CHARS));
    RetainedFourIff(w, x);
  }

  /** In particular among all pairs of numbers below 10^8. */
  lemma SameKeyBelow10To8(k1: nat, k2: nat, l1: nat, l2: nat)
    requires k1 < 100_000_000 && k2 < 100_000_000 && l1 < 100_000_000 && l2 < 100_000_000
    ensures var w, x := Decimal(k1) + Decimal(k2), Decimal(l1) + Decimal(l2);
            SameKey(k1, k2, l1, l2) <==>
              Commute(w, x) && (|w| == |x| || (|w| >= 8 && |x| >= 8))
  {
    hide Commute, Decimal, KeyBuffer;
    EightDigits(k1);
    EightDigits(k2);
    EightDigits(l1);
    EightDigits(l2);
    SameKeyIff(k1, k2, l1, l2);
  }

  lemma KeyIsFour(k1: nat, k2: nat)
    requires |Decimal(k1)| + |Decimal(k2)| <= KEY_CHARS
    ensures Fits(k1, k2)
    ensures KeyBuffer(k1, k2) == Padded(Retained(Four(Decimal(k1) + Decimal(k2)), KEY_CHARS), MAX_COMMAND_LENGTH)
  {
    hide Decimal, KeyBuffer, IvBuffer;
    var w := Decimal(k1) + Decimal(k2);
    assert KeyText(k1, k2) == Four(w);
    TextLength(Decimal(k2), Decimal(k1));
    FreshBuffers(k1, k2);
  }

  lemma FourIsDigits(w: string, limit: nat)
    requires AllDigits(w)
    ensures AllDigits(Retained(Four(w), limit))
  {
  }

  lemma PaddedInjective(a: string, b: string)
    requires AllDigits(a) && AllDigits(b) && |a| <= MAX_COMMAND_LENGTH && |b| <= MAX_COMMAND_LENGTH
    ensures Padded(a, MAX_COMMAND_LENGTH) == Padded(b, MAX_COMMAND_LENGTH) <==> a == b
  {
    var p, q := Padded(a, MAX_COMMAND_LENGTH), Padded(b, MAX_COMMAND_LENGTH);
    if p == q {
      assert |a| < |b| ==> p[|a|] == '\0' && IsDigit(q[|a|]);
      assert |b| < |a| ==> q[|b|] == '\0' && IsDigit(p[|b|]);
      assert p[..|a|] == a && q[..|b|] == b;
    }
  }

  lemma RetainedFourIff(w: string, x: string)
    requires w != "" && x != "" && |w| + |x| <= KEY_CHARS
    ensures Retained(Four(w), KEY_CHARS) == Retained(Four(x), KEY_CHARS)
       <==> Commute(w, x) && (|w| == |x| || (|w| >= 8 && |x| >= 8))
  {
    hide Four, Commute;
    if |w| == |x| {
      SameLength(w, x, KEY_CHARS);
      EqualIfCommute(w, x);
    } else if |w| >= 8 && |x| >= 8 {
      var n := |w| + |x|;
      if Four(w)[..KEY_CHARS] == Four(x)[..KEY_CHARS] {
        assert Four(w)[..n] == Four(w)[..KEY_CHARS][..n] && Four(x)[..n] == Four(x)[..KEY_CHARS][..n];
        CommonPrefixCommutes(w, x);
      }
      if Commute(w, x) {
        CommutingPowersAgree(w, x, KEY_CHARS);
      }
    }
  }

  lemma SameLength(w: string, x: string, limit: nat)
    requires |w| == |x| <= limit
    ensures Retained(Four(w), limit) == Retained(Four(x), limit) <==> w == x
  {
    assert Retained(Four(w), limit)[..|w|] == w && Retained(Four(x), limit)[..|x|] == x;
  }

  lemma EqualIfCommute(w: string, x: string)
    requires |w| == |x|
    ensures Commute(w, x) <==> w == x
  {
    assert (w + x)[..|w|] == w && (x + w)[..|w|] == x;
  }

  /** If w^4 and x^4 agree on as many characters as both texts have together, that common
      part starts with w and goes on as it began, hence is w + x, and likewise x + w. */
  lemma CommonPrefixCommutes(w: string, x: string)
    requires |w| + |x| <= 4 * |w| && |w| + |x| <= 4 * |x|
    requires Four(w)[..|w| + |x|] == Four(x)[..|w| + |x|]
    ensures Commute(w, x)
  {
    PrefixOfFour(w, x);
    PrefixOfFour(x, w);
  }

  lemma PrefixOfFour(w: string, x: string)
    requires |w| + |x| <= 4 * |w| && |w| + |x| <= 4 * |x|
    requires Four(w)[..|w| + |x|] == Four(x)[..|w| + |x|]
    ensures Four(w)[..|w| + |x|] == w + x
  {
    var n := |w| + |x|;
    var common := Four(w)[..n];
    assert common[..|w|] == w && common[..|x|] == x;
    assert forall i :: 0 <= i < |x| ==> common[|w| + i] == common[i];
  }

  lemma CommuteAppend(a: string, b: string, c: string)
    requires Commute(a, b) && Commute(a, c)
    ensures Commute(a, b + c)
  {
    calc {
      a + (b + c);
      (a + b) + c;
      (b + a) + c;
      b + (a + c);
      b + (c + a);
      (b + c) + a;
    }
  }

  lemma CommuteFour(a: string, b: string)
    requires Commute(a, b)
    ensures Commute(a, Four(b))
  {
    CommuteAppend(a, b, b);
    CommuteAppend(a, b + b, b);
    CommuteAppend(a, b + b + b, b);
  }

  lemma CommutingPowersAgree(w: string, x: string, n: nat)
    requires Commute(w, x) && n <= 4 * |w| && n <= 4 * |x|
    ensures Four(w)[..n] == Four(x)[..n]
  {
    CommuteFour(w, x);
    assert Commute(Four(x), w);
    CommuteFour(Four(x), w);
    hide Four;
    assert (Four(w) + Four(x))[..n] == Four(w)[..n] && (Four(x) + Four(w))[..n] == Four(x)[..n];
  }

  // ---------------------------------------------------------------- which pairs share key and IV

  predicate SameIv(k1: nat, k2: nat, l1: nat, l2: nat) {
    Fits(k2, k1) && Fits(l2, l1) && IvBuffer(k1, k2) == IvBuffer(l1, l2)
  }

  /** The cipher takes key and IV together. Two pairs share both if and only if, beside the
      concatenations of the key, those of the IV commute as well. */
  lemma SameKeyAndIvIff(k1: nat, k2: nat, l1: nat, l2: nat)
    requires |Decimal(k1)| + |Decimal(k2)| + |Decimal(l1)| + |Decimal(l2)| <= KEY_CHARS
    ensures var w, x := Decimal(k1) + Decimal(k2), Decimal(l1) + Decimal(l2);
            SameKey(k1, k2, l1, l2) && SameIv(k1, k2, l1, l2) <==>
              && Commute(w, x) && Commute(Decimal(k2) + Decimal(k1), Decimal(l2) + Decimal(l1))
              && (|w| == |x| || (|w| >= 8 && |x| >= 8))
  {
    hide Commute, Four, Decimal, KeyBuffer, IvBuffer;
    var v, y := Decimal(k2) + Decimal(k1), Decimal(l2) + Decimal(l1);
    SameKeyIff(k1, k2, l1, l2);
    IvIsFour(k1, k2);
    IvIsFour(l1, l2);
    FourIsDigits(v, IV_CHARS);
    FourIsDigits(y, IV_CHARS);
    PaddedInjective(Retained(Four(v), IV_CHARS), Retained(Four(y), IV_CHARS));
    if SameKey(k1, k2, l1, l2) {
      IvGivenKey(Decimal(k1), Decimal(k2), Decimal(l1), Decimal(l2));
    }
  }

  lemma IvIsFour(k1: nat, k2: nat)
    requires |Decimal(k1)| + |Decimal(k2)| <= KEY_CHARS
    ensures Fits(k2, k1)
    ensures IvBuffer(k1, k2) == Padded(Retained(Four(Decimal(k2) + Decimal(k1)), IV_CHARS), MAX_COMMAND_LENGTH)
  {
    hide Decimal, KeyBuffer, IvBuffer;
    var v := Decimal(k2) + Decimal(k1);
    assert KeyText(k2, k1) == Four(v);
    TextLength(Decimal(k1), Decimal(k2));
    FreshBuffers(k1, k2);
  }

  /** With equal keys, the IVs are equal exactly if the texts repeated in them commute. */
  lemma IvGivenKey(a: string, b: string, c: string, d: string)
    requires a != "" && b != "" && c != "" && d != ""
    requires |a| + |b| + |c| + |d| <= KEY_CHARS
    requires Commute(a + b, c + d)
    requires |a + b| == |c + d| || (|a + b| >= 8 && |c + d| >= 8)
    ensures Retained(Four(b + a), IV_CHARS) == Retained(Four(d + c), IV_CHARS) <==> Commute(b + a, d + c)
  {
    hide Four, Commute;
    var v, y := b + a, d + c;
    if |v| == |y| {
      SameLength(v, y, IV_CHARS);
      EqualIfCommute(v, y);
    } else {
      if Four(v)[..IV_CHARS] == Four(y)[..IV_CHARS] {
        RotationsCommute(a, b, c, d);
      }
      if Commute(v, y) {
        CommutingPowersAgree(v, y, IV_CHARS);
      }
    }
  }

  /** Character `i` of a text repeated for ever. */
  function At(s: string, i: nat): char
    requires s != ""
  {
    s[i % |s|]
  }

  function Rep(s: string, n: nat): (r: string)
    ensures |r| == n * |s|
  {
    if n == 0 then "" else Rep(s, n - 1) + s
  }

  lemma {:induction false} RepAt(s: string, n: nat, i: nat)
    requires s != "" && i < n * |s|
    ensures Rep(s, n)[i] == At(s, i)
  {
    var m := (n - 1) * |s|;
    assert n * |s| == m + |s|;
    if i < m {
      RepAt(s, n - 1, i);
    } else {
      UniqueRemainder(i, |s|, n - 1, i - m);
    }
  }

  lemma {:induction false} CommuteRep(a: string, b: string, n: nat)
    requires Commute(a, b)
    ensures Commute(a, Rep(b, n))
  {
    if n == 0 {
      assert a + "" == a == "" + a;
    } else {
      CommuteRep(a, b, n - 1);
      CommuteAppend(a, Rep(b, n - 1), b);
    }
  }

  /** Commuting texts repeated for ever are the same. */
  lemma CommutingForEver(w: string, x: string, i: nat)
    requires w != "" && x != "" && Commute(w, x)
    ensures At(w, i) == At(x, i)
  {
    hide At, Rep, Commute;
    SameRepetition(w, x);
    AsRepeated(w, |x|, i);
    AsRepeated(x, |w|, i);
    assert |x| * |w| == |w| * |x|;
  }

  lemma SameRepetition(w: string, x: string)
    requires Commute(w, x)
    ensures Rep(w, |x|) == Rep(x, |w|)
  {
    hide Rep;
    CommuteRep(w, x, |w|);
    assert Commute(Rep(x, |w|), w);
    CommuteRep(Rep(x, |w|), w, |x|);
    EqualIfCommute(Rep(x, |w|), Rep(w, |x|));
  }

  lemma AsRepeated(s: string, m: nat, i: nat)
    requires s != "" && m > 0
    ensures m * |s| > 0 && At(s, i) == Rep(s, m)[i % (m * |s|)]
  {
    var n := m * |s|;
    assert n > 0 by { SmallMultiple(m, |s|); }
    var k, j := i / n, i % n;
    assert i == k * n + j;
    RepAt(s, m, j);
    ProductRegrouped(k, m, |s|);
    AtPeriod(s, k * m, j);
  }

  lemma AtPeriod(s: string, k: nat, i: nat)
    requires s != ""
    ensures At(s, k * |s| + i) == At(s, i)
  {
    ModOfMultiple(k, |s|, i);
  }

  lemma AtRotated(a: string, b: string, i: nat)
    requires a + b != ""
    ensures b + a != "" && At(b + a, i) == At(a + b, i + |a|)
  {
    var n := |a| + |b|;
    var j := i % n;
    assert |b + a| == |a + b| == n && i == i / n * n + j;
    if j < |b| {
      UniqueRemainder(i + |a|, n, i / n, j + |a|);
    } else {
      assert i + |a| == (i / n + 1) * n + (j - |b|);
      UniqueRemainder(i + |a|, n, i / n + 1, j - |b|);
    }
  }

  /** The text of the IV, repeated for ever, also repeats after the other pair's length. */
  lemma RotatedPeriod(a: string, b: string, x: string, i: nat)
    requires a + b != "" && x != "" && Commute(a + b, x)
    ensures b + a != "" && At(b + a, i + |x|) == At(b + a, i)
  {
    AtRotated(a, b, i);
    AtRotated(a, b, i + |x|);
    CommutingForEver(a + b, x, i + |a|);
    CommutingForEver(a + b, x, i + |x| + |a|);
    AtPeriod(x, 1, i + |a|);
  }

  lemma OwnPeriod(s: string, i: nat)
    requires s != ""
    ensures At(s, i + |s|) == At(s, i)
  {
    AtPeriod(s, 1, i);
  }

  lemma RotationsCommute(a: string, b: string, c: string, d: string)
    requires a != "" && b != "" && c != "" && d != ""
    requires |a| + |b| + |c| + |d| <= KEY_CHARS && |a| + |b| != |c| + |d|
    requires Commute(a + b, c + d) && |a| + |b| >= 4 && |c| + |d| >= 4
    requires Four(b + a)[..IV_CHARS] == Four(d + c)[..IV_CHARS]
    ensures Commute(b + a, d + c)
  {
    hide Commute, Four;
    var v, y := b + a, d + c;
    forall i: nat
      ensures At(v, i) == At(y, i)
    {
      AgreeForEver(a, b, c, d, i);
    }
    AgreeingCommute(v, y);
  }

  lemma {:induction false} AgreeForEver(a: string, b: string, c: string, d: string, i: nat)
    requires a != "" && b != "" && c != "" && d != ""
    requires |a| + |b| + |c| + |d| <= KEY_CHARS && |a| + |b| != |c| + |d|
    requires Commute(a + b, c + d) && |a| + |b| >= 4 && |c| + |d| >= 4
    requires Four(b + a)[..IV_CHARS] == Four(d + c)[..IV_CHARS]
    ensures At(b + a, i) == At(d + c, i)
  {
    var v, y := b + a, d + c;
    if i < IV_CHARS {
      FourAt(v, i);
      FourAt(y, i);
      assert Four(v)[i] == Four(v)[..IV_CHARS][i] && Four(y)[i] == Four(y)[..IV_CHARS][i];
    } else if |v| < |y| {
      AgreeForEver(a, b, c, d, i - |v|);
      OwnPeriod(v, i - |v|);
      assert Commute(c + d, a + b);
      RotatedPeriod(c, d, a + b, i - |v|);
    } else {
      AgreeForEver(a, b, c, d, i - |y|);
      OwnPeriod(y, i - |y|);
      RotatedPeriod(a, b, c + d, i - |y|);
    }
  }

  lemma FourAt(s: string, i: nat)
    requires s != "" && i < 4 * |s|
    ensures Four(s)[i] == At(s, i)
  {
    var k := if i < |s| then 0 else if i < 2 * |s| then 1 else if i < 3 * |s| then 2 else 3;
    UniqueRemainder(i, |s|, k, i - k * |s|);
  }

  lemma AgreeingCommute(v: string, y: string)
    requires v != "" && y != "" && forall i: nat :: At(v, i) == At(y, i)
    ensures Commute(v, y)
  {
    forall j | 0 <= j < |v| + |y|
      ensures (v + y)[j] == (y + v)[j]
    {
      ConcatAt(v, y, j);
      ConcatAt(y, v, j);
      assert At(v, j) == At(y, j);
    }
    assert v + y == y + v;
  }

  lemma ConcatAt(v: string, y: string, j: nat)
    requires v != "" && y != "" && j < |v| + |y|
    requires forall i: nat :: At(v, i) == At(y, i)
    ensures (v + y)[j] == At(v, j)
  {
    if j < |v| {
      UniqueRemainder(j, |v|, 0, j);
    } else {
      UniqueRemainder(j - |v|, |y|, 0, j - |v|);
      OwnPeriod(v, j - |v|);
      assert At(v, j - |v|) == At(y, j - |v|);
    }
  }

  /** So these two pairs, which differ in their digit counts, give equal keys and equal IVs. */
  lemma LengthsMatter()
    ensures Fits(1, 11) && Fits(11, 1)
    ensures KeyBuffer(1, 11) == KeyBuffer(11, 1) && IvBuffer(1, 11) == IvBuffer(11, 1)
  {
    assert Decimal(1) == "1";
    assert Decimal(11) == Decimal(1) + "1" == "11";
    assert KeyText(1, 11) == KeyText(11, 1);
  }
}
