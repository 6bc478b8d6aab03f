/** The texts of fake-IP addresses and ranges (`src/dns/fakeIpPool.ts`). */
module FakeIpAddresses {
  import opened Common
  import opened DnsCaches
  import opened FakeIps
  import opened FakeIpSafety
  import opened SocksTexts
  import SA = SocksAddresses

  function Dotted(octets: bytes): string {
    Join(OctetTexts(octets), '.')
  }

  function OctetsOf(value: nat): (octets: bytes)
    requires value < TWO_32
    ensures |octets| == 4
  {
    var a: int, b: int, c: int := value / 0x100_0000, value / 0x1_0000, value / 0x100;
    [a, b % 0x100, c % 0x100, value % 0x100]
  }

  function ValueOf(octets: bytes): (r: nat)
    requires |octets| == 4
    ensures r < TWO_32
  {
    var a: int, b: int, c: int, d: int := octets[0], octets[1], octets[2], octets[3];
    a * 0x100_0000 + b * 0x1_0000 + c * 0x100 + d
  }

  /** `numberToIpv4` */
  function NumberToIpv4(value: nat): string
    requires value < TWO_32
  {
    Dotted(OctetsOf(value))
  }

  /** `ipv4ToNumber` */
  function Ipv4ToNumber(rt: SA.Runtime, address: string): (r: Result<nat, string>)
    ensures r.Ok? ==> r.value < TWO_32
  {
    var parts := Split(address, '.');
    match SA.ReadOctets(rt, parts)
    case Some(octets) => if |parts| == 4 then Ok(ValueOf(octets)) else Err("invalid IPv4 address")
    case None => Err("invalid IPv4 address")
  }

  lemma DottedReads(rt: SA.Runtime, octets: bytes)
    requires rt.ReadsDecimals() && |octets| == 4
    ensures Ipv4ToNumber(rt, Dotted(octets)) == Ok(ValueOf(octets))
  {
    SA.DottedSplits(octets);
    SA.OctetsRead(rt, octets);
  }

  lemma Digits(a: int, b: int, c: int, d: int)
    requires 0 <= b < 0x100 && 0 <= c < 0x100 && 0 <= d < 0x100
    ensures var v := a * 0x100_0000 + b * 0x1_0000 + c * 0x100 + d;
      && v / 0x100_0000 == a && v / 0x1_0000 == a * 0x100 + b && v / 0x100 == a * 0x1_0000 + b * 0x100 + c
      && v % 0x100 == d
  {
  }

  lemma OctetsAndBack(octets: bytes)
    requires |octets| == 4
    ensures OctetsOf(ValueOf(octets)) == octets
  {
    var a: int, b: int, c: int, d: int := octets[0], octets[1], octets[2], octets[3];
    Digits(a, b, c, d);
    assert (a * 0x100 + b) % 0x100 == b && (a * 0x1_0000 + b * 0x100 + c) % 0x100 == c;
  }

  lemma ValueAndBack(value: nat)
    requires value < TWO_32
    ensures ValueOf(OctetsOf(value)) == value
  {
    var high, mid := value / 0x1_0000, value / 0x100;
    assert value == mid * 0x100 + value % 0x100;
    assert mid == high * 0x100 + mid % 0x100 && mid / 0x100 == high;
    assert high == high / 0x100 * 0x100 + high % 0x100 && high / 0x100 == value / 0x100_0000;
  }

  /** The text of a value reads as that value, and no other value has the same text: so an address may be named by its
      value, and the addresses of a pool have different texts. */
  lemma AddressRoundTrip(rt: SA.Runtime, value: nat)
    requires value < TWO_32 && rt.ReadsDecimals()
    ensures Ipv4ToNumber(rt, NumberToIpv4(value)) == Ok(value)
    ensures forall other: nat :: other < TWO_32 && NumberToIpv4(other) == NumberToIpv4(value) ==> other == value
  {
    DottedReads(rt, OctetsOf(value));
    ValueAndBack(value);
    forall other: nat | other < TWO_32 && NumberToIpv4(other) == NumberToIpv4(value) ensures other == value {
      DottedReads(rt, OctetsOf(other));
      ValueAndBack(other);
    }
  }

  lemma DottedIs(octets: bytes)
    requires |octets| == 4
    ensures Dotted(octets) == NumberText(octets[0], 10) + "." + NumberText(octets[1], 10) + "."
                              + NumberText(octets[2], 10) + "." + NumberText(octets[3], 10)
  {
    hide NumberText;
    var t := OctetTexts(octets);
    assert Join(t, '.') == t[0] + ['.'] + Join(t[1..], '.');
    assert Join(t[1..], '.') == t[1] + ['.'] + Join(t[1..][1..], '.');
    assert t[1..][1..] == [t[2], t[3]] && [t[2], t[3]][1..] == [t[3]];
  }

  /** The text of any four octets is their decimal numbers between dots, and is that of the value it reads as. */
  lemma NumberRoundTrip(rt: SA.Runtime, octets: bytes)
    requires |octets| == 4 && rt.ReadsDecimals()
    ensures Ipv4ToNumber(rt, Dotted(octets)).Ok?
    ensures var a: int, b: int, c: int, d: int := octets[0], octets[1], octets[2], octets[3];
      var value := Ipv4ToNumber(rt, Dotted(octets)).value;
      && value == a * 0x100_0000 + b * 0x1_0000 + c * 0x100 + d
      && Dotted(octets)
         == NumberText(a, 10) + "." + NumberText(b, 10) + "." + NumberText(c, 10) + "." + NumberText(d, 10)
      && NumberToIpv4(value) == Dotted(octets)
  {
    DottedIs(octets);
    DottedReads(rt, octets);
    OctetsAndBack(octets);
  }

  // ------------------------------------------------------------------ the pool

  /** The pool's constructor, from the text of a range. */
  function PoolOf(rt: SA.Runtime, range: string, requestedSize: int): Result<Range, string> {
    var parts := Split(range, '/');
    var prefix := if |parts| < 2 then None else rt.number(parts[1]);
    if prefix.None? || prefix.value < 1 || prefix.value > 30 then
      Err("fake-ip range must be an IPv4 CIDR with prefix 1..30")
    else
      match Ipv4ToNumber(rt, parts[0])
      case Err(e) => Err(e)
      case Ok(base) => MakeRange(base, prefix.value, requestedSize)
  }

  /** The text of an address and a prefix length makes the pool of that network, or is refused as they are. */
  lemma PoolOfText(rt: SA.Runtime, base: nat, prefix: nat, requestedSize: int)
    requires base < TWO_32 && prefix < 256 && rt.ReadsDecimals()
    ensures PoolOf(rt, NumberToIpv4(base) + "/" + NumberText(prefix, 10), requestedSize)
         == MakeRange(base, prefix, requestedSize)
  {
    hide MakeRange;
    NoSlash(OctetsOf(base));
    NoSuchDigit(prefix, 10, '/');
    SplitFirst(NumberToIpv4(base), NumberText(prefix, 10), '/');
    SplitNone(NumberText(prefix, 10), '/');
    AddressRoundTrip(rt, base);
    if !(1 <= prefix <= 30) {
      RefusedPrefix(base, prefix, requestedSize);
    }
  }

  lemma RefusedPrefix(base: nat, prefix: int, requestedSize: int)
    requires base < TWO_32 && !(1 <= prefix <= 30)
    ensures MakeRange(base, prefix, requestedSize) == Err("fake-ip range must be an IPv4 CIDR with prefix 1..30")
  {
  }

  lemma {:induction false} NoSlash(octets: bytes)
    ensures '/' !in Dotted(octets)
  {
    if octets != [] {
      NoSuchDigit(octets[0], 10, '/');
      NoSlash(octets[1..]);
      assert OctetTexts(octets)[1..] == OctetTexts(octets[1..]);
    }
  }

  /** `contains`, on a text */
  function ContainsText(rt: SA.Runtime, range: Range, address: string): Result<bool, string> {
    match Ipv4ToNumber(rt, address)
    case Err(e) => Err(e)
    case Ok(value) => Ok(range.Contains(Ipv4(value)))
  }

  /** From any reachable state, the pool contains the text of every address that `assign` gives out, and `reverse` finds
      the domain under the address that this text reads as. */
  lemma AssignedIsContained(rt: SA.Runtime, config: Config, v: Service, domain: string, now: int)
    requires config.Valid() && ServiceValid(config, v) && rt.ReadsDecimals()
    ensures Assign(config, v, domain, now).Ok?
    ensures var (v', address) := Assign(config, v, domain, now).value;
      && address.value < TWO_32
      && ContainsText(rt, config.range, NumberToIpv4(address.value)) == Ok(true)
      && Ipv4(Ipv4ToNumber(rt, NumberToIpv4(address.value)).value) == address
      && address in v'.store.byAddress && v'.store.byAddress[address].domain == Lower(domain)
  {
    AssignKeepsInvariant(config, v, domain, now);
    var (v', address) := Assign(config, v, domain, now).value;
    AddressRoundTrip(rt, address.value);
  }
}
