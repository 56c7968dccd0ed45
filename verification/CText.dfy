/** The pieces of the C library that the sources lean on, as functions on character
    sequences: NUL-terminated text, `strchr`, `%zu`/`%d` printing and `atoi`.
 */
module CText {

  datatype Option<+T> = None | Some(value: T)

  /** MAX_COMMAND_LENGHT of both current headers: the size of their message buffers. */
  const MAX_COMMAND_LENGTH := 65536

  // ---------------------------------------------------------------- searching

  /** Index of the first `c` in `s` at or after `from`; `|s|` when there is none. */
  function IndexOf(s: string, c: char, from: nat): (r: nat)
    requires from <= |s|
    ensures from <= r <= |s|
    decreases |s| - from
  {
    if from == |s| || s[from] == c then from else IndexOf(s, c, from + 1)
  }

  /** It is the first one, and the only index with that property. */
  lemma {:induction false} IndexOfFirst(s: string, c: char, from: nat, r: nat)
    requires from <= r <= |s|
    ensures IndexOf(s, c, from) == r <==>
            (forall j :: from <= j < r ==> s[j] != c) && (r < |s| ==> s[r] == c)
    decreases |s| - from
  {
    if from < |s| && s[from] != c {
      if from < r {
        IndexOfFirst(s, c, from + 1, r);
      }
    }
  }

  /** The text a C reader sees at `buf + from`: everything before the next NUL. */
  function CStr(buf: string, from: nat): string
    requires from <= |buf|
  {
    buf[from..IndexOf(buf, '\0', from)]
  }

  /** The C string in a zeroed buffer into which these bytes were received. */
  function TextOf(bytes: string): string {
    bytes[..IndexOf(bytes, '\0', 0)]
  }

  /** It is what lies before the first NUL. */
  lemma TextOfIs(bytes: string)
    ensures var t := TextOf(bytes);
            t <= bytes && '\0' !in t && (t == bytes || bytes[|t|] == '\0')
  {
    IndexOfFirst(bytes, '\0', 0, IndexOf(bytes, '\0', 0));
  }

  /** `strchr(buf + from, c)`, as an index into `buf`. */
  function StrChr(buf: string, from: nat, c: char): (r: Option<nat>)
    requires from <= |buf|
    ensures r.Some? ==> from <= r.value < |buf|
  {
    var i := IndexOf(buf, c, from);
    if i < IndexOf(buf, '\0', from) then Some(i) else None
  }

  function Zeros(n: nat): (z: string)
    ensures |z| == n
    ensures forall j :: 0 <= j < n ==> z[j] == '\0'
  {
    seq(n, i => '\0')
  }

  /** A message as it lies in a zeroed receive buffer. */
  function Padded(message: string, size: nat): (buf: string)
    requires |message| <= size
    ensures |buf| == size
  {
    message + Zeros(size - |message|)
  }

  /** In a buffer where a text lies with its terminator behind it, `strchr` finds exactly
      what a search in the text finds. */
  lemma StrChrInText(buf: string, text: string, from: nat, c: char)
    requires |text| < |buf| && buf[..|text|] == text && buf[|text|] == '\0'
    requires '\0' !in text && c != '\0' && from <= |text|
    ensures IndexOf(buf, '\0', from) == |text|
    ensures StrChr(buf, from, c) == (var i := IndexOf(text, c, from); if i < |text| then Some(i) else None)
  {
    assert forall j :: 0 <= j < |text| ==> buf[j] == buf[..|text|][j] == text[j] && text[j] in text;
    IndexOfFirst(buf, '\0', from, |text|);
    var i := IndexOf(text, c, from);
    IndexOfFirst(text, c, from, i);
    IndexOfFirst(buf, c, from, if i < |text| then i else IndexOf(buf, c, from));
  }

  /** On a message that fits with its terminator, `strchr` finds exactly what a search in the message finds. */
  lemma StrChrInPadded(message: string, size: nat, from: nat, c: char)
    requires |message| < size && from <= |message|
    requires '\0' !in message && c != '\0'
    ensures IndexOf(Padded(message, size), '\0', from) == |message|
    ensures StrChr(Padded(message, size), from, c)
         == (var i := IndexOf(message, c, from); if i < |message| then Some(i) else None)
  {
    StrChrInText(Padded(message, size), message, from, c);
  }

  /** A delimited field: a search from its first character finds its delimiter, and the
      tail lies behind that. */
  lemma FieldIn(m: string, at: nat, mid: string, c: char, tail: string)
    requires at <= |m| && m[at..] == mid + [c] + tail && c !in mid
    ensures at + |mid| < |m| && m[at + |mid| + 1..] == tail
    ensures IndexOf(m, c, at) == at + |mid|
  {
    var i := at + |mid|;
    var t := m[at..];
    assert forall j :: 0 <= j < |t| ==> t[j] == m[at + j];
    assert forall j :: at <= j < i ==> m[j] == t[j - at] == mid[j - at];
    assert m[i] == t[|mid|] == c;
    assert m[i + 1..] == t[|mid| + 1..] == tail;
    IndexOfFirst(m, c, at, i);
  }

  // ---------------------------------------------------------------- buffers

  predicate Zeroed(a: array<char>, size: nat := MAX_COMMAND_LENGTH)
    reads a
  {
    a.Length == size && a[..] == Zeros(size)
  }

  /** `sprintf` or a receive into a zeroed buffer. */
  method Fill(buf: array<char>, text: string)
    requires Zeroed(buf, buf.Length) && |text| <= buf.Length
    modifies buf
    ensures buf[..] == Padded(text, buf.Length)
  {
    forall i | 0 <= i < |text| {
      buf[i] := text[i];
    }
    assert forall i :: |text| <= i < buf.Length ==> buf[i] == old(buf[..])[i];
  }

  // ---------------------------------------------------------------- numbers

  predicate IsDigit(c: char) { '0' <= c <= '9' }

  function Digit(d: nat): (c: char)
    requires d < 10
    ensures IsDigit(c) && DigitValue(c) == d
  {
    "0123456789"[d]
  }

  function DigitValue(c: char): (d: nat)
    requires IsDigit(c)
    ensures d < 10
  {
    c as int - '0' as int
  }

  predicate AllDigits(s: string) { forall i :: 0 <= i < |s| ==> IsDigit(s[i]) }

  /** `%zu` and, for non-negative values, `%d` and `%ld`. */
  function Decimal(n: nat): (s: string)
    ensures |s| > 0 && AllDigits(s)
  {
    if n < 10 then [Digit(n)] else Decimal(n / 10) + [Digit(n % 10)]
  }

  /** The number a digit string denotes. */
  function Value(s: string): nat
    requires AllDigits(s)
  {
    if s == "" then 0 else Value(s[..|s| - 1]) * 10 + DigitValue(s[|s| - 1])
  }

  /** Printing is inverted by reading the digits. */
  lemma {:induction false} ValueOfDecimal(n: nat)
    ensures Value(Decimal(n)) == n
  {
    var s := Decimal(n);
    if n < 10 {
      assert s[..|s| - 1] == "";
    } else {
      ValueOfDecimal(n / 10);
      assert s[..|s| - 1] == Decimal(n / 10);
    }
  }

  /** Distinct numbers print differently. */
  lemma DecimalInjective(m: nat, n: nat)
    ensures Decimal(m) == Decimal(n) <==> m == n
  {
    ValueOfDecimal(m);
    ValueOfDecimal(n);
  }

  predicate IsSpace(c: char) {
    c in " \t\n\r" || c == '\U{0B}' || c == '\U{0C}'
  }

  function SkipSpaces(s: string): string {
    if s != "" && IsSpace(s[0]) then SkipSpaces(s[1..]) else s
  }

  /** Length of the leading run of digits. */
  function DigitRun(s: string): (n: nat)
    ensures n <= |s| && AllDigits(s[..n])
    ensures n < |s| ==> !IsDigit(s[n])
  {
    if s == "" || !IsDigit(s[0]) then 0
    else
      var n := DigitRun(s[1..]);
      assert s[..n + 1] == [s[0]] + s[1..][..n];
      n + 1
  }

  /** Conversion of a 64-bit `long` to `int`: the low 32 bits, as a signed number. */
  function ToInt32(v: int): (r: int)
    ensures -0x8000_0000 <= r < 0x8000_0000
    ensures -0x8000_0000 <= v < 0x8000_0000 ==> r == v
    ensures (v - r) % 0x1_0000_0000 == 0
  {
    (v + 0x8000_0000) % 0x1_0000_0000 - 0x8000_0000
  }

  /** `strtol` saturates at the ends of `long`. */
  function ClampLong(v: int): (r: int)
    ensures -0x8000_0000_0000_0000 <= r < 0x8000_0000_0000_0000
    ensures v > r ==> r == 0x7FFF_FFFF_FFFF_FFFF
    ensures v < r ==> r == -0x8000_0000_0000_0000
  {
    if v > 0x7FFF_FFFF_FFFF_FFFF then 0x7FFF_FFFF_FFFF_FFFF
    else if v < -0x8000_0000_0000_0000 then -0x8000_0000_0000_0000
    else v
  }

  /** `atoi`, which the C library computes as `(int) strtol(s, NULL, 10)`. */
  function Atoi(s: string): int {
    var t := SkipSpaces(s);
    var signed := t != "" && t[0] in "+-";
    var d := if signed then t[1..] else t;
    var v: int := Value(d[..DigitRun(d)]);
    ToInt32(ClampLong(if signed && t[0] == '-' then -v else v))
  }

  lemma DigitRunOf(digits: string, rest: string)
    requires AllDigits(digits)
    requires rest == "" || !IsDigit(rest[0])
    ensures DigitRun(digits + rest) == |digits|
  {
    var s := digits + rest;
    var k := DigitRun(s);
    assert forall j :: 0 <= j < |digits| ==> s[j] == digits[j];
    assert forall j :: 0 <= j < k ==> s[..k][j] == s[j] && IsDigit(s[j]);
    assert |digits| < |s| ==> s[|digits|] == rest[0];
  }

  /** `atoi` stops at the first character after the number. */
  lemma AtoiOfDecimal(n: nat, rest: string)
    requires rest == "" || !IsDigit(rest[0])
    ensures Atoi(Decimal(n) + rest) == ToInt32(ClampLong(n))
  {
    var digits := Decimal(n);
    var s := digits + rest;
    assert s[0] == digits[0] && IsDigit(s[0]);
    DigitRunOf(digits, rest);
    ValueOfDecimal(n);
    UnsignedAtoi(s, digits);
  }

  lemma UnsignedAtoi(s: string, digits: string)
    requires s != "" && IsDigit(s[0])
    requires AllDigits(digits) && DigitRun(s) == |digits| && digits == s[..|digits|]
    ensures Atoi(s) == ToInt32(ClampLong(Value(digits)))
  {
  }

  /** White space before a number is skipped and a sign is taken into account. */
  lemma AtoiSkips(spaces: string, sign: string, n: nat, rest: string)
    requires forall i :: 0 <= i < |spaces| ==> spaces[i] in " \t\n\r\U{0B}\U{0C}"
    requires sign == "" || sign == "+" || sign == "-"
    requires rest == "" || !IsDigit(rest[0])
    ensures Atoi(spaces + (sign + (Decimal(n) + rest))) == ToInt32(ClampLong((if sign == "-" then -1 else 1) * n))
  {
    var digits := Decimal(n);
    var number := sign + (digits + rest);
    SpacesSkipped(spaces, number);
    assert sign == "" ==> number == digits + rest;
    assert sign != "" ==> number[0] == sign[0] && number[1..] == digits + rest;
    DigitRunOf(digits, rest);
    ValueOfDecimal(n);
    assert (digits + rest)[..|digits|] == digits;
    hide Decimal, SkipSpaces;
    SignedAtoi(spaces + number, sign, digits + rest, digits);
  }

  lemma SignedAtoi(s: string, sign: string, tail: string, digits: string)
    requires sign == "" || sign == "+" || sign == "-"
    requires SkipSpaces(s) == sign + tail && AllDigits(digits) && tail != "" && IsDigit(tail[0])
    requires DigitRun(tail) == |digits| && tail[..|digits|] == digits
    ensures Atoi(s) == ToInt32(ClampLong((if sign == "-" then -1 else 1) * Value(digits)))
  {
    hide SkipSpaces, DigitRun, Value, ClampLong, ToInt32;
    assert sign == "" ==> sign + tail == tail;
    assert sign != "" ==> (sign + tail)[0] == sign[0] && (sign + tail)[1..] == tail;
  }

  lemma {:induction false} SpacesSkipped(spaces: string, number: string)
    requires forall i :: 0 <= i < |spaces| ==> spaces[i] in " \t\n\r\U{0B}\U{0C}"
    requires number != "" && !IsSpace(number[0])
    ensures SkipSpaces(spaces + number) == number
  {
    if spaces == "" {
      assert spaces + number == number;
    } else {
      SpacesSkipped(spaces[1..], number);
      assert (spaces + number)[1..] == spaces[1..] + number;
    }
  }

  /** A printed number survives `atoi` exactly when it is an `int`. */
  lemma AtoiRoundTrip(n: nat, rest: string)
    requires rest == "" || !IsDigit(rest[0])
    ensures Atoi(Decimal(n) + rest) == n <==> n < 0x8000_0000
  {
    AtoiOfDecimal(n, rest);
  }

  /** Printed numbers carry none of the delimiters. */
  lemma DecimalHasNo(n: nat, c: char)
    requires !IsDigit(c)
    ensures c !in Decimal(n)
  {
  }
}
