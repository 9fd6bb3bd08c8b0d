/** `XtlsFilterTls`: what the first packets of a connection say about the TLS inside it.

    `Inspect` is the effect of one packet on the flags, `Scan` that of a list up to the first packet
    that ends the inspection. */
module TlsFilter {
  import opened Octets

  /** An entry of a multi-buffer: the source allows nil entries. */
  datatype Packet = Nil | Data(bytes: Bytes) {
    function Content(): Bytes {
      if Nil? then [] else bytes
    }
  }

  const TLS_CLIENT_HANDSHAKE_START: Bytes := [0x16, 0x03]
  const TLS_SERVER_HANDSHAKE_START: Bytes := [0x16, 0x03, 0x03]
  const TLS_APPLICATION_DATA_START: Bytes := [0x17, 0x03, 0x03]
  const TLS13_SUPPORTED_VERSIONS: Bytes := [0x00, 0x2b, 0x00, 0x02, 0x03, 0x04]
  const TLS_CLIENT_HELLO: byte := 1
  const TLS_SERVER_HELLO: byte := 2
  const TLS13_CIPHER_SUITES: set<uint16> := {0x1301, 0x1302, 0x1303, 0x1304, 0x1305}
  const TLS13_CCM8: uint16 := 0x1305

  predicate OccursAt(data: Bytes, pattern: Bytes, i: nat) {
    i + |pattern| <= |data| && data[i..i + |pattern|] == pattern
  }

  /** `bytes.Contains`. */
  predicate Contains(data: Bytes, pattern: Bytes) {
    exists i :: 0 <= i <= |data| && OccursAt(data, pattern, i)
  }

  predicate IsServerHello(b: Bytes) {
    |b| >= 6 && b[..3] == TLS_SERVER_HANDSHAKE_START && b[5] == TLS_SERVER_HELLO
  }

  predicate IsClientHello(b: Bytes) {
    |b| >= 6 && b[..2] == TLS_CLIENT_HANDSHAKE_START && b[5] == TLS_CLIENT_HELLO
  }

  /** `NumberOfPacketToFilter`, `EnableXtls`, `IsTLS12orAbove`, `IsTLS`, `Cipher` and
      `RemainingServerHello`. */
  datatype Flags = Flags(budget: int, xtls: bool, tls12: bool, tls: bool, cipher: uint16, hello: int) {
    /** XTLS is enabled only after a server hello. */
    predicate Consistent() {
      (xtls ==> tls12 && tls) && (hello > 0 ==> tls12 && tls)
    }
  }

  // ----- one packet

  /** How much of a server hello is expected, this packet included. */
  function HelloAt(f: Flags, b: Bytes): int {
    if IsServerHello(b) then GetU16(b[3..5]) as int + 5 else f.hello
  }

  /** The cipher suite the server chose; past the contents of the packet the storage holds `past`. */
  function CipherAfter(f: Flags, b: Bytes, past: uint16): uint16 {
    if IsServerHello(b) && |b| >= 79 && HelloAt(f, b) >= 79 then
      var at := 44 + b[43] as int;
      if at + 2 <= |b| then GetU16(b[at..at + 2]) else past
    else f.cipher
  }

  /** The server hello names TLS 1.3. */
  predicate NamesTls13(f: Flags, b: Bytes) {
    HelloAt(f, b) > 0 && Contains(b[..Min(HelloAt(f, b), |b|)], TLS13_SUPPORTED_VERSIONS)
  }

  /** The inspection is over: the version is known, or the server hello ends without naming one. */
  predicate Stops(f: Flags, b: Bytes) {
    NamesTls13(f, b) || 0 < HelloAt(f, b) <= |b|
  }

  predicate GoodCipher(c: uint16) {
    c in TLS13_CIPHER_SUITES && c != TLS13_CCM8
  }

  function Inspect(f: Flags, b: Bytes, past: uint16): (g: Flags)
    ensures f.Consistent() ==> g.Consistent()
  {
    var hello := HelloAt(f, b);
    Flags(if Stops(f, b) then 0 else f.budget - 1,
          f.xtls || (NamesTls13(f, b) && GoodCipher(CipherAfter(f, b, past))),
          f.tls12 || IsServerHello(b), f.tls || IsServerHello(b) || IsClientHello(b),
          CipherAfter(f, b, past), if hello > 0 then hello - |b| else hello)
  }

  // ----- a list of packets

  datatype Scanned = Scanned(flags: Flags, stopped: bool)

  /** The packets up to the first that stops. */
  function Scan(f: Flags, mb: seq<Packet>, pasts: seq<uint16>): Scanned
    requires |pasts| == |mb|
    decreases |mb|
  {
    if mb == [] then Scanned(f, false)
    else
      var n := |mb| - 1;
      var s := Scan(f, mb[..n], pasts[..n]);
      if s.stopped || mb[n].Nil? then s
      else Scanned(Inspect(s.flags, mb[n].bytes, pasts[n]), Stops(s.flags, mb[n].bytes))
  }

  lemma ScanSnoc(f: Flags, mb: seq<Packet>, pasts: seq<uint16>, p: Packet, past: uint16)
    requires |pasts| == |mb|
    ensures var s := Scan(f, mb, pasts);
            Scan(f, mb + [p], pasts + [past]) ==
            if s.stopped || p.Nil? then s else Scanned(Inspect(s.flags, p.bytes, past), Stops(s.flags, p.bytes))
  {
    assert (mb + [p])[..|mb|] == mb && (pasts + [past])[..|mb|] == pasts;
  }

  /** What follows the packet that stops is not looked at. */
  lemma {:induction false} StoppedStays(f: Flags, mb: seq<Packet>, k: nat, pasts: seq<uint16>)
    requires k <= |mb| == |pasts| && Scan(f, mb[..k], pasts[..k]).stopped
    ensures Scan(f, mb, pasts) == Scan(f, mb[..k], pasts[..k])
    decreases |mb|
  {
    if k == |mb| {
      assert mb[..k] == mb && pasts[..k] == pasts;
    } else {
      var n := |mb| - 1;
      assert mb[..n][..k] == mb[..k] && pasts[..n][..k] == pasts[..k];
      StoppedStays(f, mb[..n], k, pasts[..n]);
    }
  }

  // ----- the flags in terms of the packets

  function DataCount(mb: seq<Packet>): nat {
    if mb == [] then 0 else DataCount(mb[..|mb| - 1]) + if mb[|mb| - 1].Data? then 1 else 0
  }

  /** Packet `i` is looked at: none before it has stopped the inspection. */
  ghost predicate Seen(f: Flags, mb: seq<Packet>, pasts: seq<uint16>, i: nat)
    requires |pasts| == |mb|
  {
    i < |mb| && mb[i].Data? && !Scan(f, mb[..i], pasts[..i]).stopped
  }

  /** What a packet looked at may have: a hello of either side, one of the server, or what enables XTLS. */
  datatype Sign = AnyHello | TheServerHello | Tls13

  ghost predicate Shows(f: Flags, mb: seq<Packet>, pasts: seq<uint16>, i: nat, sign: Sign)
    requires |pasts| == |mb|
  {
    Seen(f, mb, pasts, i)
    && match sign
       case AnyHello => IsServerHello(mb[i].bytes) || IsClientHello(mb[i].bytes)
       case TheServerHello => IsServerHello(mb[i].bytes)
       case Tls13 =>
         var g := Scan(f, mb[..i], pasts[..i]).flags;
         NamesTls13(g, mb[i].bytes) && GoodCipher(CipherAfter(g, mb[i].bytes, pasts[i]))
  }

  ghost predicate SomeShows(f: Flags, mb: seq<Packet>, pasts: seq<uint16>, sign: Sign)
    requires |pasts| == |mb|
  {
    exists i: nat :: Shows(f, mb, pasts, i, sign)
  }

  lemma SomeShowsSnoc(f: Flags, mb: seq<Packet>, pasts: seq<uint16>, sign: Sign)
    requires |pasts| == |mb| && mb != []
    ensures var n := |mb| - 1;
            SomeShows(f, mb, pasts, sign) <==> SomeShows(f, mb[..n], pasts[..n], sign) || Shows(f, mb, pasts, n, sign)
  {
    hide Scan, IsServerHello, IsClientHello, NamesTls13, GoodCipher, CipherAfter;
    var n := |mb| - 1;
    var front, before := mb[..n], pasts[..n];
    forall i: nat | i < n
      ensures Shows(f, mb, pasts, i, sign) <==> Shows(f, front, before, i, sign)
    {
      assert front[..i] == mb[..i] && before[..i] == pasts[..i];
    }
    if i: nat :| Shows(f, front, before, i, sign) {
      assert Shows(f, mb, pasts, i, sign);
    }
    if i: nat :| Shows(f, mb, pasts, i, sign) {
      assert i < n ==> Shows(f, front, before, i, sign);
    }
  }

  /** The flags say exactly what the packets looked at show, and the budget is exact. */
  lemma {:induction false} ScanExactly(f: Flags, mb: seq<Packet>, pasts: seq<uint16>)
    requires |pasts| == |mb|
    ensures var s := Scan(f, mb, pasts);
            (s.flags.tls <==> f.tls || SomeShows(f, mb, pasts, AnyHello))
            && (s.flags.tls12 <==> f.tls12 || SomeShows(f, mb, pasts, TheServerHello))
            && (s.flags.xtls <==> f.xtls || SomeShows(f, mb, pasts, Tls13))
            && s.flags.budget == (if s.stopped then 0 else f.budget - DataCount(mb))
            && (f.Consistent() ==> s.flags.Consistent())
    decreases |mb|
  {
    hide Stops, IsServerHello, IsClientHello, NamesTls13, GoodCipher, CipherAfter, HelloAt, SomeShows;
    if mb == [] {
      NoneShows(f);
    } else {
      var n := |mb| - 1;
      ScanExactly(f, mb[..n], pasts[..n]);
      SomeShowsSnoc(f, mb, pasts, AnyHello);
      SomeShowsSnoc(f, mb, pasts, TheServerHello);
      SomeShowsSnoc(f, mb, pasts, Tls13);
    }
  }

  lemma NoneShows(f: Flags)
    ensures forall sign :: !SomeShows(f, [], [], sign)
  {
  }

  // ----- on the wire

  /** A client hello in one packet: byte 0x16, version 3, handshake type 1. */
  lemma ClientHello(f: Flags, b: Bytes, past: uint16)
    requires |b| >= 6 && b[0] == 0x16 && b[1] == 3 && b[5] == 1 && f.hello <= 0
    ensures Inspect(f, b, past) == f.(tls := true, budget := f.budget - 1) && !Stops(f, b)
  {
  }

  /** A server hello of TLS 1.3 in one packet, as section 4.1.3 of RFC 8446 lays it out with a session id of
      32 bytes: the suite at offset 76 and the `supported_versions` extension of section 4.2.1, which
      selects version 3.4.  XTLS is enabled exactly for the suites 0x1301 to 0x1304. */
  lemma ServerHello13(f: Flags, b: Bytes, at: nat, past: uint16)
    requires |b| >= 79 && b[0] == 0x16 && b[1] == 3 && b[2] == 3 && b[5] == 2
    requires 256 * (b[3] as int) + b[4] + 5 == |b| && b[43] == 32
    requires at + 6 <= |b| && b[at..at + 6] == [0, 43, 0, 2, 3, 4]
    ensures var g, suite := Inspect(f, b, past), 256 * (b[76] as int) + b[77];
            g.tls && g.tls12 && g.budget == 0 && Stops(f, b) && g.cipher == suite && g.hello == 0
            && (g.xtls <==> f.xtls || 0x1301 <= suite <= 0x1304)
  {
    assert b[..3] == TLS_SERVER_HANDSHAKE_START;
    assert b[..|b|] == b;
    assert OccursAt(b, TLS13_SUPPORTED_VERSIONS, at);
  }

  /** A server hello without that extension ends the inspection with TLS 1.2. */
  lemma ServerHello12(f: Flags, b: Bytes, past: uint16)
    requires |b| >= 79 && b[0] == 0x16 && b[1] == 3 && b[2] == 3 && b[5] == 2
    requires 256 * (b[3] as int) + b[4] + 5 == |b|
    requires !Contains(b, [0, 43, 0, 2, 3, 4])
    ensures var g := Inspect(f, b, past);
            g.tls && g.tls12 && g.budget == 0 && Stops(f, b) && g.xtls == f.xtls
  {
    assert b[..3] == TLS_SERVER_HANDSHAKE_START;
    assert b[..|b|] == b;
    assert TLS13_SUPPORTED_VERSIONS == [0, 43, 0, 2, 3, 4];
  }
}
