/** Addresses on the wire, port first: `protocol/address.go` with the options the mux uses. */
module Addresses {
  import opened Octets

  datatype Outcome<+T> = Ok(value: T) | Err {
    predicate IsFailure() { Err? }
    function PropagateFailure<U>(): Outcome<U> requires Err? { Err }
    function Extract(): T requires Ok? { value }
  }

  datatype Address = IPv4(ip: Bytes) | IPv6(ip: Bytes) | Domain(name: Bytes) {
    predicate WellSized() {
      (IPv4? ==> |ip| == 4) && (IPv6? ==> |ip| == 16)
    }

    predicate IsIP() {
      IPv4? || IPv6?
    }
  }

  const TYPE_IPV4: byte := 1
  const TYPE_DOMAIN: byte := 2
  const TYPE_IPV6: byte := 3

  /** `net.ParseAddress`, which decides whether a string is an IP address: any function here. */
  type Parser = Bytes -> Address

  /** An IPv6 address that embeds an IPv4 one. */
  predicate Mapped(ip: Bytes)
    requires |ip| == 16
  {
    ip[..10] == seq(10, _ => 0) && ip[10] == 0xff && ip[11] == 0xff
  }

  /** `net.IPAddress`: embedded IPv4 addresses come out as such. */
  function IPAddress(ip: Bytes): (a: Address)
    requires |ip| == 4 || |ip| == 16
    ensures a.WellSized() && a.IsIP()
  {
    if |ip| == 4 then IPv4(ip) else if Mapped(ip) then IPv4(ip[12..]) else IPv6(ip)
  }

  predicate MaybeIPPrefix(b: byte) {
    b == 91 || 48 <= b <= 57
  }

  predicate DomainChar(b: byte) {
    48 <= b <= 57 || 97 <= b <= 122 || 65 <= b <= 90 || b == 45 || b == 46 || b == 95
  }

  predicate IsValidDomain(d: Bytes) {
    forall i :: 0 <= i < |d| ==> DomainChar(d[i])
  }

  /** `writeAddress`: a domain is preceded by its length, truncated to a byte. */
  function WriteAddress(a: Address): Outcome<Bytes>
    requires a.WellSized()
  {
    match a
    case IPv4(ip) => Ok([TYPE_IPV4] + ip)
    case IPv6(ip) => Ok([TYPE_IPV6] + ip)
    case Domain(d) => if |d| > 256 then Err else Ok([TYPE_DOMAIN, |d| % 256] + d)
  }

  /** A domain name read from the wire.  For an empty one the source takes all bytes it has read so far,
      among them the address type and a zero length, which make no valid name. */
  function ReadDomain(parse: Parser, d: Bytes): Outcome<Address> {
    if d == [] then Err
    else if MaybeIPPrefix(d[0]) && parse(d).IsIP() then Ok(parse(d))
    else if IsValidDomain(d) then Ok(Domain(d))
    else Err
  }

  /** `readAddress`: the address and the bytes after it. */
  function ReadAddress(parse: Parser, data: Bytes): Outcome<(Address, Bytes)> {
    if data == [] then Err
    else
      var rest := data[1..];
      if data[0] == TYPE_IPV4 then
        if |rest| < 4 then Err else Ok((IPAddress(rest[..4]), rest[4..]))
      else if data[0] == TYPE_IPV6 then
        if |rest| < 16 then Err else Ok((IPAddress(rest[..16]), rest[16..]))
      else if data[0] == TYPE_DOMAIN then
        if rest == [] || |rest| - 1 < rest[0] then Err
        else
          var a :- ReadDomain(parse, rest[1..1 + rest[0]]);
          Ok((a, rest[1 + rest[0]..]))
      else Err
  }

  /** Addresses that survive the wire: no embedded IPv4, and domains of 1 to 255 plain characters
      that do not read as an IP address. */
  predicate Canonical(parse: Parser, a: Address)
    requires a.WellSized()
  {
    match a
    case IPv4(_) => true
    case IPv6(ip) => !Mapped(ip)
    case Domain(d) => 1 <= |d| <= 255 && IsValidDomain(d) && !(MaybeIPPrefix(d[0]) && parse(d).IsIP())
  }

  /** What is written reads back as the same address, leaving what follows, if and only if the
      address is canonical. */
  lemma AddressRoundTrip(parse: Parser, a: Address, rest: Bytes)
    requires a.WellSized() && WriteAddress(a).Ok?
    ensures Canonical(parse, a) <==> ReadAddress(parse, WriteAddress(a).value + rest) == Ok((a, rest))
    ensures |WriteAddress(a).value| <= 258
  {
    var w := WriteAddress(a).value;
    var data := w + rest;
    match a {
      case IPv4(ip) =>
        assert data[1..] == ip + rest && (ip + rest)[..4] == ip && (ip + rest)[4..] == rest;
      case IPv6(ip) =>
        assert data[1..] == ip + rest && (ip + rest)[..16] == ip && (ip + rest)[16..] == rest;
      case Domain(d) =>
        DomainRoundTrip(parse, d, rest);
    }
  }

  lemma DomainRoundTrip(parse: Parser, d: Bytes, rest: Bytes)
    requires |d| <= 256
    ensures Canonical(parse, Domain(d))
       <==> ReadAddress(parse, [TYPE_DOMAIN, |d| % 256] + d + rest) == Ok((Domain(d), rest))
  {
    var data := [TYPE_DOMAIN, |d| % 256] + d + rest;
    var body := data[1..];
    assert body[0] == |d| % 256 && body[1..] == d + rest;
    if |d| < 256 {
      assert body[1..1 + |d|] == (d + rest)[..|d|] == d;
      assert body[1 + |d|..] == (d + rest)[|d|..] == rest;
    } else {
      assert body[1..1] == [];
    }
  }

  /** A domain of 256 bytes is written, and then read as an empty one. */
  lemma LongDomainIsLost(parse: Parser, d: Bytes, rest: Bytes)
    requires |d| == 256
    ensures WriteAddress(Domain(d)) == Ok([TYPE_DOMAIN, 0] + d)
    ensures ReadAddress(parse, [TYPE_DOMAIN, 0] + d + rest) == Err
  {
  }

  /** The bytes of an address, by its kind. */
  lemma WrittenBytes(a: Address)
    requires a.WellSized()
    ensures a.IPv4? ==> WriteAddress(a) == Ok([1] + a.ip)
    ensures a.Domain? && |a.name| <= 255 ==> WriteAddress(a) == Ok([2, |a.name|] + a.name)
    ensures a.IPv6? ==> WriteAddress(a) == Ok([3] + a.ip)
    ensures a.Domain? && |a.name| > 256 ==> WriteAddress(a) == Err
  {
  }

  /** The bytes are a domain, or a name that reads as an IP address and then stands for that. */
  ghost predicate NameOf(parse: Parser, d: Bytes, a: Address) {
    1 <= |d| <= 255
    && if (d[0] == 91 || 48 <= d[0] <= 57) && parse(d).IsIP() then a == parse(d)
       else a == Domain(d) && IsValidDomain(d)
  }

  /** The bytes are those of an address: what it is, and what follows it. */
  ghost predicate Form(parse: Parser, data: Bytes, x: Bytes, a: Address, rest: Bytes) {
    (|x| == 4 && data == [1] + x + rest && a == IPv4(x))
    || (data == [2, |x| % 256] + x + rest && NameOf(parse, x, a))
    || (|x| == 16 && data == [3] + x + rest && a == if Mapped(x) then IPv4(x[12..]) else IPv6(x))
  }

  /** Reading succeeds exactly on the bytes of an address, and gives that address and what follows. */
  lemma ReadExactly(parse: Parser, data: Bytes, a: Address, rest: Bytes)
    ensures ReadAddress(parse, data) == Ok((a, rest)) <==> exists x :: Form(parse, data, x, a, rest)
  {
    if ReadAddress(parse, data) == Ok((a, rest)) {
      ReadHasForm(parse, data, a, rest);
    }
    forall x | Form(parse, data, x, a, rest)
      ensures ReadAddress(parse, data) == Ok((a, rest))
    {
      FormIsRead(parse, data, x, a, rest);
    }
  }

  lemma ReadHasForm(parse: Parser, data: Bytes, a: Address, rest: Bytes)
    requires ReadAddress(parse, data) == Ok((a, rest))
    ensures exists x :: Form(parse, data, x, a, rest)
  {
    hide Form;
    if data[0] == 2 {
      ReadsName(parse, data, a, rest);
    } else {
      ReadsIP(parse, data, a, rest);
    }
  }

  lemma ReadsName(parse: Parser, data: Bytes, a: Address, rest: Bytes)
    requires ReadAddress(parse, data) == Ok((a, rest)) && data[0] == 2
    ensures |data| >= 2 && |data| >= 2 + (data[1] as int) && Form(parse, data, data[2..2 + (data[1] as int)], a, rest)
  {
    hide IsValidDomain;
    var body, n := data[1..], data[1] as int;
    assert body[0] == n && body[1..1 + n] == data[2..2 + n] && body[1 + n..] == data[2 + n..];
    Pieces(data, 2, n);
    var x := data[2..2 + n];
    assert ReadDomain(parse, x) == Ok(a) && rest == data[2 + n..];
    assert NameOf(parse, x, a);
  }

  lemma ReadsIP(parse: Parser, data: Bytes, a: Address, rest: Bytes)
    requires ReadAddress(parse, data) == Ok((a, rest)) && data[0] != 2
    ensures var n := if data[0] == 1 then 4 else 16;
            |data| >= 1 + n && Form(parse, data, data[1..1 + n], a, rest)
  {
    hide ReadDomain;
    var body, n := data[1..], if data[0] == 1 then 4 else 16;
    assert body[..n] == data[1..1 + n] && body[n..] == data[1 + n..];
    Pieces(data, 1, n);
  }

  lemma Pieces(data: Bytes, k: nat, n: nat)
    requires k + n <= |data|
    ensures data == data[..k] + data[k..k + n] + data[k + n..]
    ensures k == 1 ==> data[..k] == [data[0]]
    ensures k == 2 ==> data[..k] == [data[0], data[1]]
  {
  }

  lemma FormIsRead(parse: Parser, data: Bytes, x: Bytes, a: Address, rest: Bytes)
    requires Form(parse, data, x, a, rest)
    ensures ReadAddress(parse, data) == Ok((a, rest))
  {
    var body := data[1..];
    if data[0] == 2 {
      assert body == [|x|] + x + rest;
      assert body[1..1 + |x|] == x && body[1 + |x|..] == rest;
    } else {
      assert body == x + rest;
      assert body[..|x|] == x && body[|x|..] == rest;
    }
  }
}
