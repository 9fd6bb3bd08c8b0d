/** Mux frame metadata: `mux/frame.go`. */
module Frames {
  import opened Octets
  import opened Addresses

  datatype Network = TCP | UDP

  datatype Destination = Destination(network: Network, address: Address, port: uint16)

  const STATUS_NEW: byte := 1
  const STATUS_KEEP: byte := 2
  const STATUS_END: byte := 3
  const STATUS_KEEP_ALIVE: byte := 4

  const OPTION_DATA: byte := 1
  const OPTION_ERROR: byte := 2

  const NETWORK_TCP: byte := 1
  const NETWORK_UDP: byte := 2

  const NO_GLOBAL_ID: Bytes := [0, 0, 0, 0, 0, 0, 0, 0]

  /** `FrameMetadata`; no target stands for the unknown network. */
  datatype Meta = Meta(target: Option<Destination>, id: uint16, option: byte, status: byte, globalID: Bytes) {
    predicate HasData() {
      option % 2 == 1
    }
  }

  function NetworkByte(n: Network): byte {
    if n == TCP then NETWORK_TCP else NETWORK_UDP
  }

  predicate Writable(d: Destination) {
    d.address.WellSized() && WriteAddress(d.address).Ok?
  }

  /** Network, port and address. */
  function Target(d: Destination): Bytes
    requires Writable(d)
  {
    [NetworkByte(d.network)] + PutU16(d.port) + WriteAddress(d.address).value
  }

  /** What follows the four fixed bytes.  `udp` is the packet destination attached to the frame's
      buffer: it adds the global id to a new session, and itself to any other frame. */
  function Tail(f: Meta, udp: Option<Destination>): Bytes
    requires f.status == STATUS_NEW ==> f.target.Some? && Writable(f.target.value)
    requires udp.Some? ==> Writable(udp.value)
  {
    if f.status == STATUS_NEW then Target(f.target.value) + (if udp.Some? then f.globalID else [])
    else if udp.Some? then Target(udp.value.(network := UDP))
    else []
  }

  /** `WriteTo`: the metadata, preceded by its length. */
  function Body(f: Meta, udp: Option<Destination>): Bytes
    requires f.status == STATUS_NEW ==> f.target.Some? && Writable(f.target.value)
    requires udp.Some? ==> Writable(udp.value)
  {
    PutU16(f.id) + [f.status, f.option] + Tail(f, udp)
  }

  /** Reading a port and an address. */
  function ReadPort(parse: Parser, data: Bytes): Outcome<(Address, uint16, Bytes)> {
    if |data| < 2 then Err
    else
      var r :- ReadAddress(parse, data[2..]);
      Ok((r.0, GetU16(data[..2]), r.1))
  }

  /** `UnmarshalFromBuffer`. */
  function Decode(parse: Parser, b: Bytes): Outcome<Meta> {
    if |b| < 4 then Err
    else
      var f := Meta(None, GetU16(b[..2]), b[3], b[2], NO_GLOBAL_ID);
      if f.status == STATUS_NEW || (f.status == STATUS_KEEP && |b| > 4 && b[4] == NETWORK_UDP) then
        if |b| < 8 then Err
        else
          var r :- ReadPort(parse, b[5..]);
          if b[4] == NETWORK_TCP then Ok(f.(target := Some(Destination(TCP, r.0, r.1))))
          else if b[4] == NETWORK_UDP then
            var g := f.(target := Some(Destination(UDP, r.0, r.1)));
            Ok(if f.status == STATUS_NEW && f.HasData() && |r.2| >= 8 then g.(globalID := r.2[..8]) else g)
          else Err
      else Ok(f)
  }

  /** A frame whose addresses survive the wire. */
  predicate Sendable(parse: Parser, f: Meta, udp: Option<Destination>) {
    |f.globalID| == 8
    && (f.status == STATUS_NEW ==> f.target.Some? && Writable(f.target.value) && Canonical(parse, f.target.value.address))
    && (udp.Some? ==> Writable(udp.value) && Canonical(parse, udp.value.address))
  }

  /** What the receiver learns: the target of a new session, the tag of a kept one, and the global id
      only where a packet comes with it. */
  function Received(f: Meta, udp: Option<Destination>): Meta {
    if f.status == STATUS_NEW then
      f.(globalID := if f.HasData() && f.target.Some? && f.target.value.network == UDP && udp.Some? then f.globalID
                     else NO_GLOBAL_ID)
    else if f.status == STATUS_KEEP && udp.Some? then
      f.(target := Some(udp.value.(network := UDP)), globalID := NO_GLOBAL_ID)
    else f.(target := None, globalID := NO_GLOBAL_ID)
  }

  lemma ReadTarget(parse: Parser, d: Destination, rest: Bytes)
    requires Writable(d) && Canonical(parse, d.address)
    ensures var t := Target(d) + rest;
            |Target(d)| >= 5 && t[0] == NetworkByte(d.network)
            && ReadPort(parse, t[1..]) == Ok((d.address, d.port, rest))
    ensures |Target(d)| <= 261
  {
    hide ReadAddress, WriteAddress, Canonical;
    var w := WriteAddress(d.address).value;
    AddressRoundTrip(parse, d.address, rest);
    WrittenLength(d.address);
    var t := Target(d) + rest;
    assert t[1..] == PutU16(d.port) + (w + rest);
    assert t[1..][..2] == PutU16(d.port) && t[1..][2..] == w + rest;
  }

  lemma WrittenLength(a: Address)
    requires a.WellSized() && WriteAddress(a).Ok?
    ensures |WriteAddress(a).value| >= 2
  {
  }

  lemma FixedPart(f: Meta, tail: Bytes)
    ensures var b := PutU16(f.id) + [f.status, f.option] + tail;
            |b| == 4 + |tail| && b[..2] == PutU16(f.id) && b[2] == f.status && b[3] == f.option && b[4..] == tail
            && (tail != [] ==> b[4] == tail[0] && b[5..] == tail[1..])
  {
  }

  /** The metadata round trip: id, status, option and target come back, and the global id exactly for
      a new packet session that carries data and a tagged packet.  The length prefix is exact and
      within the limit the reader enforces. */
  lemma MetaRoundTrip(parse: Parser, f: Meta, udp: Option<Destination>)
    requires Sendable(parse, f, udp)
    ensures Decode(parse, Body(f, udp)) == Ok(Received(f, udp)) && |Body(f, udp)| <= 512
  {
    hide ReadPort, Target, Canonical, WriteAddress;
    FixedPart(f, Tail(f, udp));
    if f.status == STATUS_NEW {
      var extra := if udp.Some? then f.globalID else [];
      ReadTarget(parse, f.target.value, extra);
      assert f.globalID[..8] == f.globalID;
    } else if udp.Some? {
      var d := udp.value.(network := UDP);
      ReadTarget(parse, d, []);
      assert Target(d) + [] == Target(d);
    }
  }

  // ----- the layout, with its numbers

  /** Id, status and option in four bytes; a new session and a tagged packet add the network, the port
      and the address, and a new session with a tagged packet its global id. */
  lemma Layout(f: Meta, udp: Option<Destination>)
    requires f.status == 1 ==> f.target.Some? && Writable(f.target.value)
    requires udp.Some? ==> Writable(udp.value)
    ensures var head := [f.id / 256, f.id % 256, f.status, f.option];
            Body(f, udp) ==
            if f.status == 1 then
              var d := f.target.value;
              head + ([if d.network == TCP then 1 else 2, d.port / 256, d.port % 256] + WriteAddress(d.address).value)
              + if udp.Some? then f.globalID else []
            else if udp.Some? then
              head + ([2, udp.value.port / 256, udp.value.port % 256] + WriteAddress(udp.value.address).value)
            else head
  {
    hide WriteAddress;
    if f.status == 1 {
      var t := Target(f.target.value);
      var g := if udp.Some? then f.globalID else [];
      assert PutU16(f.id) + [f.status, f.option] + (t + g) == (PutU16(f.id) + [f.status, f.option] + t) + g;
    } else if udp.None? {
      assert PutU16(f.id) + [f.status, f.option] + [] == PutU16(f.id) + [f.status, f.option];
    }
  }

  /** The bytes announce a target: those of a new session, and of a kept one with a tagged packet. */
  predicate Targeted(b: Bytes) {
    |b| >= 4 && (b[2] == 1 || (b[2] == 2 && |b| > 4 && b[4] == 2))
  }

  /** Decoding fails exactly on fewer than four bytes, and on an announced target that is cut short, of an
      unknown network, or without a readable address. */
  lemma DecodeFails(parse: Parser, b: Bytes)
    ensures Decode(parse, b) == Err <==>
              |b| < 4 || (Targeted(b) && (|b| < 8 || (b[4] != 1 && b[4] != 2) || ReadAddress(parse, b[7..]) == Err))
  {
    hide ReadAddress;
    if |b| >= 8 {
      assert b[5..][2..] == b[7..] && b[5..][..2] == b[5..7];
    }
  }

  /** What is decoded otherwise: a global id is taken only from a new UDP session with data, if eight bytes
      follow the address. */
  lemma DecodeGives(parse: Parser, b: Bytes)
    requires Decode(parse, b).Ok?
    ensures var m := Decode(parse, b).value;
            m.id == 256 * (b[0] as int) + b[1] && m.status == b[2] && m.option == b[3]
            && if !Targeted(b) then m.target == None && m.globalID == [0, 0, 0, 0, 0, 0, 0, 0]
               else
                 var r := ReadAddress(parse, b[7..]).value;
                 m.target == Some(Destination(if b[4] == 1 then TCP else UDP, r.0, 256 * (b[5] as int) + b[6]))
                 && m.globalID == if b[2] == 1 && b[3] % 2 == 1 && b[4] == 2 && |r.1| >= 8 then r.1[..8]
                                  else [0, 0, 0, 0, 0, 0, 0, 0]
  {
    hide ReadAddress;
    if |b| >= 8 {
      assert b[5..][2..] == b[7..] && b[5..][..2] == b[5..7];
    }
  }
}
