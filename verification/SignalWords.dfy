/** An admin's address travels to the broadcaster inside the one word that a queued
    signal can carry: `Encrypt_signal`, `Translate_signal` and the advertised text.

    Words are natural numbers below their width; masking, shifting and joining are the
    remainder, quotient and sum that `BitForms` shows them to be.
 */
module SignalWords {
  import opened CText

  const W16: nat := 0x1_0000
  const W32: nat := 0x1_0000_0000
  const W48: nat := 0x1_0000_0000_0000

  type word16 = n: nat | n < 0x1_0000
  type word32 = n: nat | n < 0x1_0000_0000
  type word64 = n: nat | n < 0x1_0000_0000_0000_0000

  /** The bit expressions of the source, on machine words, in arithmetic form. */
  lemma BitForms(data: bv64, addr: bv32, port: bv16)
    ensures data & 0xFFFF_FFFF == data % 0x1_0000_0000
    ensures (data >> 32) & 0xFFFF == (data / 0x1_0000_0000) % 0x1_0000
    ensures (addr as bv64) | ((port as bv64) << 32) == (addr as bv64) + (port as bv64) * 0x1_0000_0000
  {
  }

  datatype ByteOrder = LittleEndian | BigEndian

  /** The two fields of `sockaddr_in` that matter, as stored: in network byte order. */
  datatype Address = Address(addr: word32, port: word16)

  /** A number's lowest octet, the number without it, and a number with an octet appended. */
  function Low(x: nat): (r: nat) ensures r < 0x100 { x % 0x100 }
  function High(x: nat): nat { x / 0x100 }
  function Push(x: nat, octet: nat): nat { x * 0x100 + octet }

  /** Host to network order: the octets reversed on a little-endian host. */
  function Htonl(o: ByteOrder, x: word32): word32 {
    match o
    case BigEndian => x
    case LittleEndian => Push(Push(Push(Low(x), Low(High(x))), Low(High(High(x)))), Low(High(High(High(x)))))
  }

  function Htons(o: ByteOrder, x: word16): word16 {
    match o
    case BigEndian => x
    case LittleEndian => Push(Low(x), Low(High(x)))
  }

  /** `ntohl` and `ntohs` are the same reversals. */
  function Ntohl(o: ByteOrder, x: word32): word32 { Htonl(o, x) }
  function Ntohs(o: ByteOrder, x: word16): word16 { Htons(o, x) }

  function EncryptSignal(o: ByteOrder, a: Address): word64 {
    Ntohl(o, a.addr) + Ntohs(o, a.port) * W32
  }

  function TranslateSignal(o: ByteOrder, data: word64): Address {
    Address(Htonl(o, data % W32), Htons(o, data / W32 % W16))
  }

  lemma LowHigh(x: nat, octet: nat)
    requires octet < 0x100
    ensures Low(Push(x, octet)) == octet && High(Push(x, octet)) == x
    ensures Push(High(x), Low(x)) == x
  {
  }

  /** Reversing the octets twice restores the word. */
  lemma SwapsAreInvolutions(o: ByteOrder, x: word32, y: word16)
    ensures Ntohl(o, Htonl(o, x)) == Htonl(o, Ntohl(o, x)) == x
    ensures Ntohs(o, Htons(o, y)) == Htons(o, Ntohs(o, y)) == y
  {
    if o == LittleEndian {
      FourOctetsTwice(x);
      TwoOctetsTwice(y);
    }
  }

  lemma FourOctetsTwice(x: word32)
    ensures Htonl(LittleEndian, Htonl(LittleEndian, x)) == x
  {
    var x1 := High(x);
    var x2 := High(x1);
    TopOctet(x);
    hide Low, High, Push;
    var a, b, c, d := Low(High(x2)), Low(x2), Low(x1), Low(x);
    LowHigh(x, 0);
    LowHigh(x1, 0);
    LowHigh(x2, 0);
    assert x == Push(Push(Push(a, b), c), d);
    LowHigh(Push(Push(d, c), b), a);
    LowHigh(Push(d, c), b);
    LowHigh(d, c);
    SingleOctet(d);
  }

  lemma TopOctet(x: word32)
    ensures Low(High(High(High(x)))) == High(High(High(x)))
  {
  }

  lemma SingleOctet(d: nat)
    requires d < 0x100
    ensures Low(d) == d
  {
  }

  lemma TwoOctetsTwice(y: word16)
    ensures Htons(LittleEndian, Htons(LittleEndian, y)) == y
  {
    LowHigh(Low(y), Low(High(y)));
    assert Low(High(y)) == High(y);
    LowHigh(y, 0);
  }

  // ---------------------------------------------------------------- what lies in memory

  /** The `n` octets of a number, the highest first. */
  function Octets(x: nat, n: nat): (r: seq<nat>)
    ensures |r| == n
  {
    if n == 0 then [] else Octets(x / 0x100, n - 1) + [x % 0x100]
  }

  /** The `n` octets of a stored number, by increasing address. */
  function InMemory(o: ByteOrder, x: nat, n: nat): (r: seq<nat>)
    ensures |r| == n
  {
    if n == 0 then []
    else match o
      case LittleEndian => [x % 0x100] + InMemory(o, x / 0x100, n - 1)
      case BigEndian => InMemory(o, x / 0x100, n - 1) + [x % 0x100]
  }

  /** What is in network order lies in memory highest octet first, on either kind of host. */
  lemma NetworkOrder(o: ByteOrder, x: word32, y: word16)
    ensures InMemory(o, Htonl(o, x), 4) == Octets(x, 4)
    ensures InMemory(o, Htons(o, y), 2) == Octets(y, 2)
  {
    match o
    case BigEndian =>
      BigEndianMemory(x, 4);
      BigEndianMemory(y, 2);
    case LittleEndian =>
      FourReversed(Low(x), Low(High(x)), Low(High(High(x))), Low(High(High(High(x)))));
      TwoReversed(Low(y), Low(High(y)));
      FourOctets(x);
      TwoOctets(y);
  }

  lemma {:induction false} BigEndianMemory(x: nat, n: nat)
    ensures InMemory(BigEndian, x, n) == Octets(x, n)
  {
    if n > 0 {
      BigEndianMemory(x / 0x100, n - 1);
    }
  }

  lemma TwoOctets(x: nat)
    ensures Octets(x, 2) == [Low(High(x)), Low(x)]
  {
    assert Octets(x, 0) == [] && Octets(High(x), 1) == [Low(High(x))];
  }

  lemma FourOctets(x: nat)
    ensures Octets(x, 4) == [Low(High(High(High(x)))), Low(High(High(x))), Low(High(x)), Low(x)]
  {
    TwoOctets(High(High(x)));
    assert Octets(High(x), 3) == Octets(High(High(x)), 2) + [Low(High(x))];
  }

  lemma TwoReversed(a: nat, b: nat)
    requires a < 0x100 && b < 0x100
    ensures InMemory(LittleEndian, Push(a, b), 2) == [b, a]
  {
    LowHigh(a, b);
    SingleOctet(a);
    assert InMemory(LittleEndian, High(a), 0) == [] && InMemory(LittleEndian, a, 1) == [Low(a)];
  }

  lemma FourReversed(a: nat, b: nat, c: nat, d: nat)
    requires a < 0x100 && b < 0x100 && c < 0x100 && d < 0x100
    ensures InMemory(LittleEndian, Push(Push(Push(a, b), c), d), 4) == [d, c, b, a]
  {
    var x := Push(Push(a, b), c);
    LowHigh(x, d);
    LowHigh(Push(a, b), c);
    TwoReversed(a, b);
    assert InMemory(LittleEndian, x, 3) == [c] + InMemory(LittleEndian, Push(a, b), 2);
  }

  /** For example, on a little-endian host an admin's port 23457 is stored as 0xA15B. */
  lemma StoredPort()
    ensures OwnAddress(LittleEndian, 23457) == Address(0, 0xA15B)
    ensures OwnAddress(BigEndian, 23457) == Address(0, 23457)
  {
    assert Low(23457) == 0xA1 && High(23457) == 0x5B && Low(0x5B) == 0x5B;
    hide Low, High, Htonl;
  }

  /** The word carries the number of the host's address in its low 32 bits and that of the
      port in the 16 above, so an admin's word is its port shifted by 32. */
  lemma WordCarries(o: ByteOrder, x: word32, y: word16)
    ensures EncryptSignal(o, Address(Htonl(o, x), Htons(o, y))) == y * 0x1_0000_0000 + x
    ensures PackPort(o, y) == y * 0x1_0000_0000
    ensures AnswerText(o, OwnAddress(o, y)) == Decimal(y) + "\n"
  {
    hide Htonl, Htons, Decimal;
    SwapsAreInvolutions(o, x, y);
    ZeroStored(o);
  }

  lemma ZeroStored(o: ByteOrder)
    ensures Ntohl(o, 0) == 0
  {
    assert Low(0) == 0 && High(0) == 0;
    hide Low, High;
  }

  /** Packing loses nothing, for every address and port and on either kind of host. */
  lemma PackThenUnpack(o: ByteOrder, a: Address)
    ensures TranslateSignal(o, EncryptSignal(o, a)) == a
  {
    hide Htonl, Htons;
    SwapsAreInvolutions(o, a.addr, a.port);
  }

  /** Unpacking a word and packing it again keeps exactly its low 48 bits. */
  lemma UnpackThenPack(o: ByteOrder, data: word64)
    ensures EncryptSignal(o, TranslateSignal(o, data)) == data % W48
  {
    hide Htonl, Htons;
    SwapsAreInvolutions(o, data % W32, data / W32 % W16);
  }

  // ---------------------------------------------------------------- ports

  /** The address an admin fills in before binding: INADDR_ANY and a port. */
  function OwnAddress(o: ByteOrder, port: word16): Address {
    Address(0, Htons(o, port))
  }

  /** The number that the broadcaster prints and that a caller can dial. */
  function PortOf(o: ByteOrder, a: Address): word16 {
    Ntohs(o, a.port)
  }

  function PackPort(o: ByteOrder, port: word16): word64 {
    EncryptSignal(o, OwnAddress(o, port))
  }

  lemma PortSurvivesSignal(o: ByteOrder, port: word16)
    ensures PortOf(o, TranslateSignal(o, PackPort(o, port))) == port
  {
    hide Htonl, Htons, EncryptSignal, TranslateSignal;
    PackThenUnpack(o, OwnAddress(o, port));
    SwapsAreInvolutions(o, 0, port);
  }

  /** `sprintf(buf_answer, "%d\n", ntohs(adm_addr.sin_port))` */
  function AnswerText(o: ByteOrder, a: Address): string {
    Decimal(PortOf(o, a)) + "\n"
  }

  /** The answering process: a global address that a signal handler replaces and the
      answer loop prints. */
  class Broadcaster {
    const order: ByteOrder
    var admAddr: Address

    constructor (order: ByteOrder)
      ensures this.order == order && admAddr == Address(0, 0)
    {
      this.order := order;
      admAddr := Address(0, 0);
    }

    /** `Update_admin_info`; a word packed from a port makes that port the advertised one. */
    method UpdateAdminInfo(data: word64)
      modifies this`admAddr
      ensures EncryptSignal(order, admAddr) == data % W48
      ensures forall port: word16 :: data == PackPort(order, port) ==> PortOf(order, admAddr) == port
    {
      hide EncryptSignal, TranslateSignal, PortOf, PackPort;
      admAddr := TranslateSignal(order, data);
      UnpackThenPack(order, data);
      forall port: word16 | data == PackPort(order, port)
        ensures PortOf(order, admAddr) == port
      {
        PortSurvivesSignal(order, port);
      }
    }

    /** One turn of the answer loop: the asker's `atoi` reads the advertised port. */
    method Answer() returns (text: string)
      ensures text == AnswerText(order, admAddr)
      ensures Atoi(text) == PortOf(order, admAddr)
    {
      hide PortOf, Decimal, Atoi;
      text := AnswerText(order, admAddr);
      AtoiRoundTrip(PortOf(order, admAddr), "\n");
    }
  }
}
