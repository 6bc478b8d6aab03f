/** The SOCKS address codec (`src/protocol/address.ts`) and the SOCKS UDP packet around it
    (`src/inbound/socks5Udp.ts`); sections 5 and 7 of RFC 1928. */
module SocksAddresses {
  import opened Common
  import opened SocksTexts

  datatype AddressType = Ipv4 | Ipv6 | Domain

  datatype Destination = Destination(host: string, port: int, addressType: AddressType)

  /** What the code asks of JavaScript: `net.isIP`, `Number` where it gives an integer, and UTF-8 both ways. */
  datatype Runtime = Runtime(
    isIp: string -> AddressType,
    number: string -> Option<int>,
    utf8: string -> bytes,
    text: bytes -> string)
  {
    /** `Number` reads the plain decimal text of a byte. */
    ghost predicate ReadsDecimals() {
      forall n: nat :: n < 256 ==> number(NumberText(n, 10)) == Some(n)
    }
  }

  // ------------------------------------------------------- what is on the wire

  /** An address as the wire carries it. */
  datatype Address = V4(octets: bytes) | V6(words: seq<Word>) | Name(name: bytes) {
    ghost predicate Valid() {
      match this
      case V4(octets) => |octets| == 4
      case V6(words) => |words| == 8
      case Name(name) => |name| <= 255
    }

    /** Type byte, length byte for a name, address. */
    function Wire(): bytes
      requires Valid()
    {
      match this
      case V4(octets) => [1] + octets
      case V6(words) => [4] + WordBytes(words)
      case Name(name) => [3, |name|] + name
    }

    /** The host text decoding gives. */
    function Text(rt: Runtime): string {
      match this
      case V4(octets) => Join(OctetTexts(octets), '.')
      case V6(words) => Join(GroupTexts(words), ':')
      case Name(name) => rt.text(name)
    }

    function Type(): AddressType {
      match this case V4(_) => Ipv4 case V6(_) => Ipv6 case Name(_) => Domain
    }
  }

  function PortBytes(port: int): bytes {
    [port / 256 % 256, port % 256]
  }

  // ----------------------------------------------------------------- encoding

  /** Four numbers from 0 to 255, or nothing. */
  function ReadOctets(rt: Runtime, parts: seq<string>): (r: Option<bytes>)
    ensures r.Some? ==> |r.value| == |parts|
  {
    if parts == [] then Some([])
    else
      match rt.number(parts[0])
      case None => None
      case Some(n) =>
        if n < 0 || n > 255 then None
        else match ReadOctets(rt, parts[1..])
          case None => None
          case Some(rest) => Some([n] + rest)
  }

  /** The address a destination names, or why it names none. */
  function AddressOf(rt: Runtime, d: Destination): (r: Result<Address, TextError>)
    ensures r.Ok? ==> r.value.Valid() && r.value.Type() == d.addressType
  {
    match d.addressType
    case Ipv4 =>
      var parts := Split(d.host, '.');
      var octets := ReadOctets(rt, parts);
      if |parts| != 4 || octets.None? then Err(InvalidIpv4) else Ok(V4(octets.value))
    case Ipv6 =>
      (match Ipv6Groups(d.host) case Err(e) => Err(e) case Ok(words) => Ok(V6(words)))
    case Domain =>
      var name := rt.utf8(d.host);
      if |name| > 255 then Err(NameTooLong) else Ok(Name(name))
  }

  function Encoded(rt: Runtime, d: Destination): Result<bytes, TextError> {
    match AddressOf(rt, d)
    case Err(e) => Err(e)
    case Ok(a) => Ok(a.Wire() + PortBytes(d.port))
  }

  method EncodeSocksAddress(rt: Runtime, d: Destination) returns (r: Result<bytes, TextError>)
    ensures r == Encoded(rt, d)
  {
    var port := [d.port / 256 % 256, d.port % 256];
    if d.addressType == Ipv4 {
      var parts := Split(d.host, '.');
      var octets := ReadOctets(rt, parts);
      if |parts| != 4 || octets.None? {
        return Err(InvalidIpv4);
      }
      return Ok([1] + octets.value + port);
    }
    if d.addressType == Ipv6 {
      var address := Ipv6ToBytes(d.host);
      if address.Err? {
        return Err(address.error);
      }
      return Ok([4] + address.value + port);
    }
    var host := rt.utf8(d.host);
    if |host| > 255 {
      return Err(NameTooLong);
    }
    return Ok([3, |host|] + host + port);
  }

  // ----------------------------------------------------------------- decoding

  datatype DecodeError =
    | MissingType | TruncatedIpv4 | InvalidNameLength | TruncatedName | TruncatedIpv6 | UnsupportedType

  /** Where an address ends and its port starts. */
  datatype Placed = Placed(address: Address, portAt: nat)

  /** The address at an offset: its type decides how long it is, and the port must fit behind it. */
  function AddressAt(buffer: bytes, offset: nat): (r: Result<Placed, DecodeError>)
    ensures r.Ok? ==> r.value.address.Valid() && offset < r.value.portAt && r.value.portAt + 2 <= |buffer|
  {
    if offset >= |buffer| then Err(MissingType)
    else if buffer[offset] == 1 then
      if offset + 7 > |buffer| then Err(TruncatedIpv4)
      else Ok(Placed(V4(buffer[offset + 1..offset + 5]), offset + 5))
    else if buffer[offset] == 3 then
      if offset + 1 >= |buffer| || buffer[offset + 1] == 0 then Err(InvalidNameLength)
      else
        var end := offset + 2 + buffer[offset + 1];
        if end + 2 > |buffer| then Err(TruncatedName)
        else Ok(Placed(Name(buffer[offset + 2..end]), end))
    else if buffer[offset] == 4 then
      if offset + 19 > |buffer| then Err(TruncatedIpv6)
      else Ok(Placed(V6(BytesWords(buffer[offset + 1..offset + 17])), offset + 17))
    else Err(UnsupportedType)
  }

  function MakeDestination(rt: Runtime, host: string, port: int): Destination {
    Destination(host, port, rt.isIp(host))
  }

  datatype DecodedAddress = DecodedAddress(destination: Destination, offset: nat)

  function Decoded(rt: Runtime, buffer: bytes, offset: nat): Result<DecodedAddress, DecodeError> {
    match AddressAt(buffer, offset)
    case Err(e) => Err(e)
    case Ok(Placed(address, at)) =>
      Ok(DecodedAddress(MakeDestination(rt, address.Text(rt), BigEndian(buffer[at], buffer[at + 1])), at + 2))
  }

  /** The loop of both IPv6 branches: the texts of the eight groups in sixteen bytes. */
  method GroupsFrom(buffer: bytes, start: nat) returns (groups: seq<string>)
    requires start + 16 <= |buffer|
    ensures groups == GroupTexts(BytesWords(buffer[start..start + 16]))
  {
    groups := [];
    var index := start;
    ghost var b := buffer[start..start + 16];
    while index < start + 16
      invariant start <= index <= start + 16 && (index - start) % 2 == 0 && |groups| == (index - start) / 2
      invariant forall k :: 0 <= k < |groups| ==> groups[k] == NumberText(BigEndian(b[2 * k], b[2 * k + 1]), 16)
    {
      var high, low := buffer[index], buffer[index + 1];
      assert high == b[2 * |groups|] && low == b[2 * |groups| + 1];
      groups := groups + [NumberText(BigEndian(high, low), 16)];
      index := index + 2;
    }
    forall k | 0 <= k < 8 ensures BytesWords(b)[k] == BigEndian(b[2 * k], b[2 * k + 1]) {
      BytesWordsAt(b, k);
    }
  }

  lemma {:induction false} BytesWordsAt(b: bytes, k: nat)
    requires |b| % 2 == 0 && 2 * k < |b|
    ensures BytesWords(b)[k] == BigEndian(b[2 * k], b[2 * k + 1])
  {
    if k > 0 {
      BytesWordsAt(b[2..], k - 1);
    }
  }

  method DecodeSocksAddress(rt: Runtime, buffer: bytes, offset: nat) returns (r: Result<DecodedAddress, DecodeError>)
    ensures r == Decoded(rt, buffer, offset)
  {
    if offset >= |buffer| {
      return Err(MissingType);
    }
    var addressType := buffer[offset];
    if addressType == 1 {
      var addressEnd := offset + 5;
      var portEnd := addressEnd + 2;
      if portEnd > |buffer| {
        return Err(TruncatedIpv4);
      }
      var host := Join(OctetTexts(buffer[offset + 1..addressEnd]), '.');
      var port := BigEndian(buffer[addressEnd], buffer[addressEnd + 1]);
      return Ok(DecodedAddress(MakeDestination(rt, host, port), portEnd));
    }
    if addressType == 3 {
      if offset + 1 >= |buffer| || buffer[offset + 1] == 0 {
        return Err(InvalidNameLength);
      }
      var hostEnd := offset + 2 + buffer[offset + 1];
      var portEnd := hostEnd + 2;
      if portEnd > |buffer| {
        return Err(TruncatedName);
      }
      var host := rt.text(buffer[offset + 2..hostEnd]);
      return Ok(DecodedAddress(MakeDestination(rt, host, BigEndian(buffer[hostEnd], buffer[hostEnd + 1])), portEnd));
    }
    if addressType == 4 {
      var addressEnd := offset + 17;
      var portEnd := addressEnd + 2;
      if portEnd > |buffer| {
        return Err(TruncatedIpv6);
      }
      var groups := GroupsFrom(buffer, offset + 1);
      var host := Join(groups, ':');
      var port := BigEndian(buffer[addressEnd], buffer[addressEnd + 1]);
      return Ok(DecodedAddress(MakeDestination(rt, host, port), portEnd));
    }
    return Err(UnsupportedType);
  }

  /** Main result on the wire form, section 5 of RFC 1928: the type byte, then four octets, eight words, or a length
      and the name, then the port, high bytes first. */
  lemma EncodedIs(rt: Runtime, d: Destination)
    requires Encoded(rt, d).Ok?
    ensures var code, n := Encoded(rt, d).value, |Encoded(rt, d).value|;
      && n >= 4 && 256 * (code[n - 2] as int) + code[n - 1] == d.port % 65536
      && match d.addressType
         case Ipv4 =>
           && n == 7 && code[0] == 1 && |Split(d.host, '.')| == 4
           && forall i :: 0 <= i < 4 ==> rt.number(Split(d.host, '.')[i]) == Some(code[1 + i])
         case Ipv6 =>
           && n == 19 && code[0] == 4 && Ipv6Groups(d.host).Ok?
           && forall i :: 0 <= i < 8 ==>
                256 * (code[1 + 2 * i] as int) + code[2 + 2 * i] == Ipv6Groups(d.host).value[i]
         case Domain => code[0] == 3 && code[1] == n - 4 && code[2..n - 2] == rt.utf8(d.host)
  {
    hide Address.Wire, PortBytes, ReadOctets, Ipv6Groups, Split;
    var a := AddressOf(rt, d).value;
    WireIs(a);
    PortStands(a.Wire(), d.port);
    match d.addressType
    case Ipv4 => OctetsAreRead(rt, Split(d.host, '.'));
    case _ =>
  }

  lemma PortStands(w: bytes, port: int)
    ensures var code, n := w + PortBytes(port), |w| + 2;
      |code| == n && code[..n - 2] == w && 256 * (code[n - 2] as int) + code[n - 1] == port % 65536
  {
    PortReads(port);
  }

  lemma WireIs(a: Address)
    requires a.Valid()
    ensures var w := a.Wire();
      match a
      case V4(octets) => |w| == 5 && w[0] == 1 && w[1..] == octets
      case V6(words) =>
        |w| == 17 && w[0] == 4
        && forall i :: 0 <= i < 8 ==> 256 * (w[1 + 2 * i] as int) + w[2 + 2 * i] == words[i]
      case Name(name) => |w| == 2 + |name| && w[0] == 3 && w[1] == |name| && w[2..] == name
  {
    if a.V6? {
      forall i | 0 <= i < 8
        ensures 256 * (WordBytes(a.words)[2 * i] as int) + WordBytes(a.words)[2 * i + 1] == a.words[i]
      {
        WordBytesAt(a.words, i);
      }
    }
  }

  lemma {:induction false} OctetsAreRead(rt: Runtime, parts: seq<string>)
    requires ReadOctets(rt, parts).Some?
    ensures forall i :: 0 <= i < |parts| ==> rt.number(parts[i]) == Some(ReadOctets(rt, parts).value[i])
  {
    if parts != [] {
      OctetsAreRead(rt, parts[1..]);
    }
  }

  // --------------------------------------------------------------- round trips

  /** The wire form of an address is found again wherever it stands, whatever surrounds it; all but the empty name. */
  lemma WireIsFound(a: Address, before: bytes, port: bytes, after: bytes, buffer: bytes)
    requires a.Valid() && |port| == 2 && buffer == before + (a.Wire() + port) + after
    ensures AddressAt(buffer, |before|) ==
      if a == Name([]) then Err(InvalidNameLength) else Ok(Placed(a, |before| + |a.Wire()|))
    ensures buffer[|before| + |a.Wire()|..|before| + |a.Wire()| + 2] == port
  {
    var n, w := |before|, a.Wire();
    assert forall i :: 0 <= i < |w| ==> buffer[n + i] == w[i];
    match a
    case V4(octets) =>
      assert buffer[n + 1..n + 5] == octets;
    case V6(words) =>
      assert buffer[n + 1..n + 17] == WordBytes(words);
      WordsOfBytes(words);
    case Name(name) =>
      assert buffer[n + 2..n + 2 + |name|] == name;
  }

  lemma PortReads(port: int)
    ensures BigEndian(PortBytes(port)[0], PortBytes(port)[1]) == port % 65536
  {
    assert port == 65536 * (port / 65536) + 256 * (port / 256 % 256) + port % 256 by {
      assert port / 256 / 256 == port / 65536;
    }
  }

  /** Main result: an encoded destination decodes, whatever bytes stand before and after it, to the text of the same
      address and the port modulo 2^16, ending where the encoding ends — if and only if the name is not empty; and to
      the very same destination when its host is written as decoding writes it, its type is the one `net.isIP` gives,
      and its port is a port. */
  lemma RoundTrip(rt: Runtime, d: Destination, before: bytes, after: bytes)
    requires Encoded(rt, d).Ok?
    ensures var a, code := AddressOf(rt, d).value, Encoded(rt, d).value;
      var r := Decoded(rt, before + code + after, |before|);
      && (r.Ok? <==> a != Name([]))
      && (r.Err? ==> r.error == InvalidNameLength)
      && (r.Ok? ==>
            && r.value.offset == |before| + |code|
            && r.value.destination == MakeDestination(rt, a.Text(rt), d.port % 65536)
            && (d.host == a.Text(rt) && d.addressType == rt.isIp(d.host) && 0 <= d.port < 65536 ==>
                  r.value.destination == d))
  {
    var a, code := AddressOf(rt, d).value, Encoded(rt, d).value;
    var buffer := before + code + after;
    WireIsFound(a, before, PortBytes(d.port), after, buffer);
    PortReads(d.port);
    var at := |before| + |a.Wire()|;
    assert buffer[at..at + 2] == PortBytes(d.port);
    assert buffer[at] == buffer[at..at + 2][0] && buffer[at + 1] == buffer[at..at + 2][1];
  }

  lemma {:induction false} OctetsRead(rt: Runtime, octets: bytes)
    requires rt.ReadsDecimals()
    ensures ReadOctets(rt, OctetTexts(octets)) == Some(octets)
  {
    if octets != [] {
      OctetsRead(rt, octets[1..]);
      var texts := OctetTexts(octets);
      assert texts[1..] == OctetTexts(octets[1..]);
      assert rt.number(NumberText(octets[0], 10)) == Some(octets[0] as int);
      assert [octets[0]] + octets[1..] == octets;
    }
  }

  lemma DottedSplits(octets: bytes)
    requires octets != []
    ensures Split(Join(OctetTexts(octets), '.'), '.') == OctetTexts(octets)
  {
    var texts := OctetTexts(octets);
    forall i | 0 <= i < |texts| ensures '.' !in texts[i] {
      NoSuchDigit(octets[i], 10, '.');
    }
    SplitJoin(texts, '.');
  }

  /** The text decoding writes for an address names that address. */
  lemma TextNamesAddress(rt: Runtime, a: Address, port: int)
    requires a.Valid() && rt.ReadsDecimals()
    requires a.Name? ==> rt.utf8(rt.text(a.name)) == a.name
    ensures AddressOf(rt, Destination(a.Text(rt), port, a.Type())) == Ok(a)
  {
    match a
    case V4(octets) =>
      DottedSplits(octets);
      OctetsRead(rt, octets);
    case V6(words) =>
      Ipv6TextReads(words);
    case Name(name) =>
  }

  /** Main result, the other way: encoding what decoding read gives back the bytes it read if and only if `net.isIP`
      calls the text what the type byte said and, for a name, its bytes survive being text. */
  lemma ReencodingGivesBytesBack(rt: Runtime, buffer: bytes, offset: nat)
    requires rt.ReadsDecimals() && Decoded(rt, buffer, offset).Ok?
    ensures var r, a := Decoded(rt, buffer, offset).value, AddressAt(buffer, offset).value.address;
      Encoded(rt, r.destination) == Ok(buffer[offset..r.offset]) <==>
      rt.isIp(a.Text(rt)) == a.Type() && (a.Name? ==> rt.utf8(rt.text(a.name)) == a.name)
  {
    var Placed(a, at) := AddressAt(buffer, offset).value;
    var d := Decoded(rt, buffer, offset).value.destination;
    var read := buffer[offset..at + 2];
    WireWasRead(buffer, offset, d.port);
    if d.addressType == a.Type() && (a.Name? ==> rt.utf8(rt.text(a.name)) == a.name) {
      TextNamesAddress(rt, a, d.port);
      assert d == Destination(a.Text(rt), d.port, a.Type());
    } else if Encoded(rt, d) == Ok(read) {
      SameWireSameName(AddressOf(rt, d).value, a, PortBytes(d.port));
    }
  }

  lemma WireWasRead(buffer: bytes, offset: nat, port: int)
    requires AddressAt(buffer, offset).Ok?
    requires var at := AddressAt(buffer, offset).value.portAt; port == BigEndian(buffer[at], buffer[at + 1])
    ensures var Placed(a, at) := AddressAt(buffer, offset).value;
      a.Wire() + PortBytes(port) == buffer[offset..at + 2]
  {
    var Placed(a, at) := AddressAt(buffer, offset).value;
    assert a.Wire() == buffer[offset..at] by {
      if a.V6? {
        BytesOfWords(buffer[offset + 1..offset + 17]);
      }
    }
    BytesOfBigEndian(buffer[at], buffer[at + 1]);
    assert PortBytes(port) == [buffer[at], buffer[at + 1]] == buffer[at..at + 2];
    assert buffer[offset..at + 2] == buffer[offset..at] + buffer[at..at + 2];
  }

  lemma SameWireSameName(a: Address, b: Address, port: bytes)
    requires a.Valid() && b.Valid() && a.Wire() + port == b.Wire() + port
    ensures a.Type() == b.Type() && (a.Name? ==> a == b)
  {
    assert a.Wire() == (a.Wire() + port)[..|a.Wire()|] == b.Wire() by {
      assert |a.Wire() + port| == |b.Wire() + port|;
    }
    assert a.Wire()[0] == b.Wire()[0];
    if a.Name? {
      assert a.name == a.Wire()[2..] && b.name == b.Wire()[2..];
    }
  }

  /** Cutting an encoded address short never decodes; which error the cut gives. Only a cut behind the type byte,
      and for a name behind its length, is reported as truncation. */
  lemma CutAddressIsRefused(rt: Runtime, d: Destination, k: nat)
    requires Encoded(rt, d).Ok? && AddressOf(rt, d).value != Name([]) && k < |Encoded(rt, d).value|
    ensures Decoded(rt, Encoded(rt, d).value[..k], 0) == Err(
      if k == 0 then MissingType
      else match d.addressType
        case Ipv4 => TruncatedIpv4
        case Ipv6 => TruncatedIpv6
        case Domain => if k == 1 then InvalidNameLength else TruncatedName)
  {
    var a, code := AddressOf(rt, d).value, Encoded(rt, d).value;
    var cut := code[..k];
    assert |a.Wire()| + 2 == |code|;
    assert a.Name? ==> a.name != [] && |a.Wire()| == 2 + |a.name|;
    if k > 0 {
      assert cut[0] == code[0] == a.Wire()[0];
      if k > 1 {
        assert cut[1] == code[1] == a.Wire()[1];
      }
    }
  }

  // --------------------------------------------------------------- UDP packets

  datatype UdpError = TooShort | BadReserved | Fragmented | BadAddress | MissingPort

  datatype UdpPacket = UdpPacket(destination: Destination, payload: bytes)

  datatype Host = Host(host: string, offset: nat)

  /** `readAddress`: the address reader of the UDP parser, which takes the type byte from elsewhere and leaves the port
      to its caller. */
  method ReadAddress(rt: Runtime, buffer: bytes, offset: nat, kind: byte) returns (r: Option<Host>)
    ensures r == HostAt(rt, buffer, offset, kind)
  {
    if kind == 1 {
      var end := offset + 4;
      if end > |buffer| {
        return None;
      }
      return Some(Host(Join(OctetTexts(buffer[offset..end]), '.'), end));
    }
    if kind == 3 {
      var length: int := if offset < |buffer| then buffer[offset] else 0;
      var end := offset + 1 + length;
      if length == 0 || end > |buffer| {
        return None;
      }
      return Some(Host(rt.text(buffer[offset + 1..end]), end));
    }
    if kind == 4 {
      var end := offset + 16;
      if end > |buffer| {
        return None;
      }
      var groups := GroupsFrom(buffer, offset);
      return Some(Host(Join(groups, ':'), end));
    }
    return None;
  }

  function HostAt(rt: Runtime, buffer: bytes, offset: nat, kind: byte): (r: Option<Host>)
    ensures r.Some? ==> offset < r.value.offset <= |buffer|
  {
    var length: int := if offset < |buffer| then buffer[offset] else 0;
    if kind == 1 && offset + 4 <= |buffer| then Some(Host(V4(buffer[offset..offset + 4]).Text(rt), offset + 4))
    else if kind == 3 && 0 < length <= |buffer| - offset - 1 then
      Some(Host(Name(buffer[offset + 1..offset + 1 + length]).Text(rt), offset + 1 + length))
    else if kind == 4 && offset + 16 <= |buffer| then
      Some(Host(V6(BytesWords(buffer[offset..offset + 16])).Text(rt), offset + 16))
    else None
  }

  function ParsedUdp(rt: Runtime, message: bytes): Result<UdpPacket, UdpError> {
    if |message| < 7 then Err(TooShort)
    else if message[0] != 0 || message[1] != 0 then Err(BadReserved)
    else if message[2] != 0 then Err(Fragmented)
    else
      match HostAt(rt, message, 4, message[3])
      case None => Err(BadAddress)
      case Some(Host(host, at)) =>
        if at + 1 >= |message| then Err(MissingPort)
        else Ok(UdpPacket(MakeDestination(rt, host, BigEndian(message[at], message[at + 1])), message[at + 2..]))
  }

  method ParseSocksUdpPacket(rt: Runtime, message: bytes) returns (r: Result<UdpPacket, UdpError>)
    ensures r == ParsedUdp(rt, message)
  {
    if |message| < 7 {
      return Err(TooShort);
    }
    if message[0] != 0 || message[1] != 0 {
      return Err(BadReserved);
    }
    if message[2] != 0 {
      return Err(Fragmented);
    }
    var parsed := ReadAddress(rt, message, 4, message[3]);
    if parsed.None? {
      return Err(BadAddress);
    }
    var at := parsed.value.offset;
    if at + 1 >= |message| {
      return Err(MissingPort);
    }
    var port := BigEndian(message[at], message[at + 1]);
    return Ok(UdpPacket(MakeDestination(rt, parsed.value.host, port), message[at + 2..]));
  }

  method EncodeSocksUdpPacket(rt: Runtime, source: Destination, payload: bytes) returns (r: Result<bytes, TextError>)
    ensures r == match Encoded(rt, source) case Err(e) => Err(e) case Ok(code) => Ok([0, 0, 0] + code + payload)
  {
    var address := EncodeSocksAddress(rt, source);
    if address.Err? {
      return Err(address.error);
    }
    return Ok([0, 0, 0] + address.value + payload);
  }

  /** Main result: the two address readers agree. A packet is taken exactly when its first three bytes are zero and
      the stream decoder takes the address behind them, and then with that destination and the rest as payload. */
  lemma UdpParserAgreesWithDecoder(rt: Runtime, message: bytes)
    ensures var r := ParsedUdp(rt, message);
      var zeros := |message| >= 3 && message[..3] == [0, 0, 0];
      && (r.Ok? <==> zeros && Decoded(rt, message, 3).Ok?)
      && (r.Ok? ==>
            var d := Decoded(rt, message, 3).value;
            r.value == UdpPacket(d.destination, message[d.offset..]))
  {
    if |message| >= 3 {
      assert message[..3] == [message[0], message[1], message[2]];
    }
    if |message| >= 7 {
      SameHost(rt, message);
    }
  }

  lemma SameHost(rt: Runtime, message: bytes)
    requires |message| >= 7
    ensures match AddressAt(message, 3)
      case Ok(Placed(a, at)) => HostAt(rt, message, 4, message[3]) == Some(Host(a.Text(rt), at))
      case Err(_) =>
        var h := HostAt(rt, message, 4, message[3]);
        h.Some? ==> h.value.offset + 2 > |message|
  {
  }

  /** Packets round-trip: the payload unchanged, the destination as in `RoundTrip`. */
  lemma UdpRoundTrip(rt: Runtime, source: Destination, payload: bytes)
    requires Encoded(rt, source).Ok?
    ensures var a := AddressOf(rt, source).value;
      var r := ParsedUdp(rt, [0, 0, 0] + Encoded(rt, source).value + payload);
      && (r.Ok? <==> a != Name([]))
      && (r.Ok? ==> r.value == UdpPacket(MakeDestination(rt, a.Text(rt), source.port % 65536), payload))
  {
    var code := Encoded(rt, source).value;
    var message := [0, 0, 0] + code + payload;
    RoundTrip(rt, source, [0, 0, 0], payload);
    UdpParserAgreesWithDecoder(rt, message);
    assert message[..3] == [0, 0, 0];
    assert message[3 + |code|..] == payload;
  }
}
