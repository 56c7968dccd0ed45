/** The line that the old client saves after a login and re-reads at its next connection. */
module SavedSession {
  import opened CText
  import opened Commands
  import opened KeyDerivation

  datatype Saved = Saved(login: string, password: string, key: string, iv: string)

  /** `"%s#%s#%s\n"` applied to "login#password", the key and the IV. */
  function SavedLine(logPas: string, key: string, iv: string): string {
    logPas + "#" + key + "#" + iv + "\n"
  }

  datatype Reading =
    | NoSession                     // 32 bytes or less
    | NullSearch                    // a missing '#': a search from a null pointer
    | Unterminated                  // no NUL in the buffer: searches and copies run past it
    | Previous(saved: Saved)

  const LEAST_LINE := 32

  /** MAX_COMMAND_LENGHT of the old client's header. */
  const OLD_COMMAND_LENGTH := 1024

  /** One `read` into a buffer of that size. */
  function FirstRead(file: string): (bytes: string)
    ensures |bytes| <= OLD_COMMAND_LENGTH
  {
    if |file| <= OLD_COMMAND_LENGTH then file else file[..OLD_COMMAND_LENGTH]
  }

  /** The first three delimiters. */
  function Delimiters(text: string): (r: Option<(nat, nat, nat)>)
    ensures r.Some? ==> var (p, q, t) := r.value; p < q < t < |text|
  {
    var p := IndexOf(text, '#', 0);
    if p == |text| then None else
      var q := IndexOf(text, '#', p + 1);
      if q == |text| then None else
        var t := IndexOf(text, '#', q + 1);
        if t == |text| then None else Some((p, q, t))
  }

  /** The parts between them and behind the last. */
  function PartsAt(text: string, p: nat, q: nat, t: nat): Saved
    requires p < q < t < |text|
  {
    Saved(text[..p], text[p + 1..q], text[q + 1..t], text[t + 1..])
  }

  function SplitLine(text: string): (r: Reading)
    ensures r.NullSearch? || r.Previous?
  {
    match Delimiters(text)
    case None => NullSearch
    case Some((p, q, t)) => Previous(PartsAt(text, p, q, t))
  }

  function ReadSaved(file: string): Reading {
    var bytes := FirstRead(file);
    var n := IndexOf(bytes, '\0', 0);
    if |bytes| <= LEAST_LINE then NoSession
    else if n == OLD_COMMAND_LENGTH then Unterminated
    else SplitLine(bytes[..n])
  }

  /** Saved and re-read: login, password and key come back exactly, and the IV with the
      line's newline behind it, if and only if the line is longer than 32 and shorter than
      1024 bytes and none of the first three contains the delimiter. A shorter line is not
      recognised, and a longer one leaves the buffer without a terminator. */
  lemma SavedRoundTrip(login: string, password: string, key: string, iv: string)
    requires NoNul(login) && NoNul(password) && NoNul(key) && NoNul(iv)
    ensures var line := SavedLine(login + "#" + password, key, iv); var r := ReadSaved(line);
            && line == login + "#" + password + "#" + key + "#" + iv + "\n"
            && (r == NoSession <==> |line| <= 32)
            && (r == Unterminated <==> |line| >= 1024)
            && (r == Previous(Saved(login, password, key, iv + "\n"))
                <==> 32 < |line| < 1024 && '#' !in login && '#' !in password && '#' !in key)
  {
    hide IndexOf, SplitLine;
    var line := SavedLine(login + "#" + password, key, iv);
    ReadWhole(line);
    if '#' !in login && '#' !in password && '#' !in key {
      CleanLine(login, password, key, iv);
    } else {
      SplitIsClean(line);
    }
  }

  /** What is read of a line without NULs. */
  lemma ReadWhole(line: string)
    requires NoNul(line)
    ensures ReadSaved(line) == if |line| <= LEAST_LINE then NoSession
                               else if |line| >= OLD_COMMAND_LENGTH then Unterminated
                               else SplitLine(line)
  {
    hide SplitLine;
    var bytes := FirstRead(line);
    assert forall j :: 0 <= j < |bytes| ==> bytes[j] in line;
    IndexOfFirst(bytes, '\0', 0, |bytes|);
    assert bytes[..|bytes|] == bytes;
  }

  lemma CleanLine(login: string, password: string, key: string, iv: string)
    requires '#' !in login && '#' !in password && '#' !in key
    ensures SplitLine(SavedLine(login + "#" + password, key, iv)) == Previous(Saved(login, password, key, iv + "\n"))
  {
    hide IndexOf;
    var line := SavedLine(login + "#" + password, key, iv);
    var p := |login|;
    var q := p + 1 + |password|;
    var t3 := iv + "\n";
    var t2 := key + ['#'] + t3;
    var t1 := password + ['#'] + t2;
    assert line[0..] == login + ['#'] + t1;
    FieldIn(line, 0, login, '#', t1);
    FieldIn(line, p + 1, password, '#', t2);
    FieldIn(line, q + 1, key, '#', t3);
    SliceOf(line, 0, login, t1);
    SliceOf(line, p + 1, password, t2);
    SliceOf(line, q + 1, key, t3);
  }

  lemma SliceOf(line: string, at: nat, part: string, tail: string)
    requires at <= |line| && line[at..] == part + ['#'] + tail
    ensures line[at..at + |part|] == part
  {
    assert line[at..][..|part|] == line[at..at + |part|];
  }

  /** Whatever is read, the first three parts never contain the delimiter. */
  lemma PartsAreClean(file: string)
    ensures var r := ReadSaved(file); r.Previous? ==>
              '#' !in r.saved.login && '#' !in r.saved.password && '#' !in r.saved.key
  {
    hide SplitLine;
    var bytes := FirstRead(file);
    SplitIsClean(bytes[..IndexOf(bytes, '\0', 0)]);
  }

  lemma SplitIsClean(text: string)
    ensures var r := SplitLine(text); r.Previous? ==>
              '#' !in r.saved.login && '#' !in r.saved.password && '#' !in r.saved.key
  {
    hide IndexOf;
    var p := IndexOf(text, '#', 0);
    IndexOfFirst(text, '#', 0, p);
    if p < |text| {
      var q := IndexOf(text, '#', p + 1);
      IndexOfFirst(text, '#', p + 1, q);
      if q < |text| {
        IndexOfFirst(text, '#', q + 1, IndexOf(text, '#', q + 1));
      }
    }
  }

  /** Agreed keys are digits, so of the key and the IV only the lengths matter. */
  lemma SavedAfterKeyExchange(login: string, password: string, k1: nat, k2: nat)
    requires NoNul(login) && NoNul(password)
    ensures var key := Retained(KeyText(k1, k2), KEY_CHARS); var iv := Retained(KeyText(k2, k1), IV_CHARS);
            var line := SavedLine(login + "#" + password, key, iv);
            ReadSaved(line) == Previous(Saved(login, password, key, iv + "\n"))
            <==> 32 < |line| < 1024 && '#' !in login && '#' !in password
  {
    hide ReadSaved, SavedLine, Decimal;
    var key := Retained(KeyText(k1, k2), KEY_CHARS);
    var iv := Retained(KeyText(k2, k1), IV_CHARS);
    RetainedDigits(k1, k2, KEY_CHARS);
    RetainedDigits(k2, k1, IV_CHARS);
    SavedRoundTrip(login, password, key, iv);
  }

  lemma RetainedDigits(k1: nat, k2: nat, limit: nat)
    ensures '#' !in Retained(KeyText(k1, k2), limit) && NoNul(Retained(KeyText(k1, k2), limit))
  {
    hide Decimal;
    assert AllDigits(KeyText(k1, k2));
    assert forall i :: 0 <= i < |Retained(KeyText(k1, k2), limit)| ==> IsDigit(Retained(KeyText(k1, k2), limit)[i]);
  }

  /** The buffer with the delimiters behind the first three parts overwritten. */
  function CutInPlace(buf: string, saved: Saved): string
    requires |saved.login| + |saved.password| + |saved.key| + 2 < |buf|
  {
    var p := |saved.login|;
    var q := p + 1 + |saved.password|;
    var t := q + 1 + |saved.key|;
    buf[p := '\0'][q := '\0'][t := '\0']
  }

  /** `Check_for_old_keys`: one read of the file into a zeroed buffer, cut in place at its
      first three delimiters, and copied out piece by piece. */
  method CheckForOldKeys(buf: array<char>, file: string) returns (r: Reading)
    requires Zeroed(buf, OLD_COMMAND_LENGTH)
    modifies buf
    ensures r == ReadSaved(file)
    ensures !r.Previous? ==> buf[..] == Padded(FirstRead(file), OLD_COMMAND_LENGTH)
    ensures r.Previous? ==>
              && |r.saved.login| + |r.saved.password| + |r.saved.key| + 2 < OLD_COMMAND_LENGTH
              && buf[..] == CutInPlace(Padded(FirstRead(file), OLD_COMMAND_LENGTH), r.saved)
  {
    hide IndexOf, Padded, FirstRead, Delimiters;
    var bytes := FirstRead(file);
    Fill(buf, bytes);
    if |bytes| <= LEAST_LINE {
      return NoSession;
    }
    TextInBuffer(bytes);
    var end := IndexOf(buf[..], '\0', 0);
    if end == buf.Length {
      return Unterminated;
    }
    var places := FindDelimiters(buf, bytes[..end]);
    if places.None? {
      return NullSearch;
    }
    var (p, q, t) := places.value;
    var saved := CutAndCopy(buf, p, q, t, bytes[..end]);
    r := Previous(saved);
  }

  predicate Holds(buf: string, text: string) {
    |text| < |buf| && buf[..|text|] == text && buf[|text|] == '\0' && NoNul(text)
  }

  /** The three searches. */
  method FindDelimiters(buf: array<char>, ghost text: string) returns (r: Option<(nat, nat, nat)>)
    requires Holds(buf[..], text)
    ensures r == Delimiters(text)
  {
    hide IndexOf, StrChr;
    StrChrInText(buf[..], text, 0, '#');
    var password := StrChr(buf[..], 0, '#');
    if password.None? { return None; }
    StrChrInText(buf[..], text, password.value + 1, '#');
    var key := StrChr(buf[..], password.value + 1, '#');
    if key.None? { return None; }
    StrChrInText(buf[..], text, key.value + 1, '#');
    var iv := StrChr(buf[..], key.value + 1, '#');
    if iv.None? { return None; }
    r := Some((password.value, key.value, iv.value));
  }

  /** The three cuts in place and the four copies. */
  method CutAndCopy(buf: array<char>, p: nat, q: nat, t: nat, ghost text: string) returns (saved: Saved)
    requires Holds(buf[..], text) && p < q < t < |text|
    modifies buf
    ensures saved == PartsAt(text, p, q, t)
    ensures buf[..] == old(buf[..])[p := '\0'][q := '\0'][t := '\0']
  {
    hide CStr;
    ghost var whole := buf[..];
    buf[p] := '\0';
    buf[q] := '\0';
    buf[t] := '\0';
    assert buf[..] == whole[p := '\0'][q := '\0'][t := '\0'];
    CutThrice(whole, text, p, q, t);
    saved := Saved(CStr(buf[..], 0), CStr(buf[..], p + 1), CStr(buf[..], q + 1), CStr(buf[..], t + 1));
  }

  /** What was read lies in the buffer up to its first NUL, and has none if it fills the
      buffer without one. */
  lemma TextInBuffer(bytes: string)
    requires |bytes| <= OLD_COMMAND_LENGTH
    ensures var whole := Padded(bytes, OLD_COMMAND_LENGTH); var n := IndexOf(bytes, '\0', 0);
            && IndexOf(whole, '\0', 0) == n
            && (n < OLD_COMMAND_LENGTH ==> Holds(whole, bytes[..n]))
  {
    var whole, n := Padded(bytes, OLD_COMMAND_LENGTH), IndexOf(bytes, '\0', 0);
    IndexOfFirst(bytes, '\0', 0, n);
    assert forall j :: 0 <= j < |bytes| ==> whole[j] == bytes[j];
    IndexOfFirst(whole, '\0', 0, n);
  }

  lemma CutThrice(whole: string, text: string, p: nat, q: nat, t: nat)
    requires Holds(whole, text) && p < q < t < |text|
    ensures var buf := whole[p := '\0'][q := '\0'][t := '\0'];
            && CStr(buf, 0) == text[..p] && CStr(buf, p + 1) == text[p + 1..q]
            && CStr(buf, q + 1) == text[q + 1..t] && CStr(buf, t + 1) == text[t + 1..]
  {
    hide CStr;
    var buf := whole[p := '\0'][q := '\0'][t := '\0'];
    assert forall j :: 0 <= j < |text| ==> whole[j] == whole[..|text|][j] == text[j];
    assert buf[p] == buf[q] == buf[t] == buf[|text|] == '\0';
    PieceReads(text, buf, 0, p);
    PieceReads(text, buf, p + 1, q);
    PieceReads(text, buf, q + 1, t);
    PieceReads(text, buf, t + 1, |text|);
  }

  lemma PieceReads(text: string, buf: string, from: nat, to: nat)
    requires from <= to <= |text| < |buf| && NoNul(text) && buf[to] == '\0'
    requires forall j :: from <= j < to ==> buf[j] == text[j]
    ensures CStr(buf, from) == text[from..to]
  {
    assert forall j :: from <= j < to ==> text[j] in text;
    Terminated(buf, from, to);
    assert buf[from..to] == text[from..to];
  }
}
