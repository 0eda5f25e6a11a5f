/**
 * An IPv4-only model of the three library calls the IP-block test makes:
 * `net.ParseCIDR`, `net.ParseIP` and `IPNet.Contains`. Addresses are the
 * 32-bit numbers of dotted-quad text; a network is its masked base address
 * and prefix length, and contains an address when their first prefix-length
 * bits agree (the prefix match of section 3.1 of RFC 4632).
 */
module IPNet {
  import opened Wrappers

  const AddressSpace: nat := 0x1_0000_0000

  type PrefixLength = n: nat | n <= 32

  /** An IPv4 network as `ParseCIDR` returns it: the address with the host bits cleared. */
  datatype Network = Network(base: nat, prefixLength: PrefixLength)

  /** The number of host bits of a prefix. */
  function HostBits(prefixLength: PrefixLength): nat {
    32 - prefixLength
  }

  /** `a` shifted right by `k` bits: the host bits dropped. */
  function ShiftRight(a: nat, k: nat): nat {
    if k == 0 then a else ShiftRight(a / 2, k - 1)
  }

  /** `a` shifted left by `k` bits: `k` zero host bits appended. */
  function ShiftLeft(a: nat, k: nat): nat {
    if k == 0 then a else 2 * ShiftLeft(a, k - 1)
  }

  predicate IsDigit(c: char) {
    '0' <= c <= '9'
  }

  predicate AllDigits(s: string) {
    forall i :: 0 <= i < |s| ==> IsDigit(s[i])
  }

  /** The value of a decimal numeral (leading zeros allowed). */
  function DecimalValue(s: string): nat
    requires AllDigits(s)
  {
    if s == [] then 0
    else DecimalValue(s[..|s| - 1]) * 10 + (s[|s| - 1] as int - '0' as int)
  }

  /** The pieces of `s` between occurrences of `sep`, in order; at least one piece. */
  function Split(s: string, sep: char): (r: seq<string>)
    ensures |r| >= 1
  {
    if s == [] then [""]
    else if s[0] == sep then [""] + Split(s[1..], sep)
    else
      var rest := Split(s[1..], sep);
      [[s[0]] + rest[0]] + rest[1..]
  }

  /** One dotted-quad field: decimal digits, at most 255, no leading zero. */
  function ParseOctet(s: string): (r: Option<nat>)
    ensures r.Some? ==> r.value < 256
  {
    if s == [] || !AllDigits(s) || (|s| > 1 && s[0] == '0') then None
    else if DecimalValue(s) > 255 then None
    else Some(DecimalValue(s))
  }

  /** `net.ParseIP`, restricted to IPv4 dotted-quad text. */
  function ParseIP(s: string): (r: Option<nat>)
    ensures r.Some? ==> r.value < AddressSpace
  {
    var fields := Split(s, '.');
    if |fields| != 4 then None
    else
      match (ParseOctet(fields[0]), ParseOctet(fields[1]), ParseOctet(fields[2]), ParseOctet(fields[3]))
      case (Some(a), Some(b), Some(c), Some(d)) => Some(a * 0x100_0000 + b * 0x1_0000 + c * 0x100 + d)
      case _ => None
  }

  /** The position of the first `/`, if any. */
  function SlashIndex(s: string): (r: Option<nat>)
    ensures r.Some? ==> r.value < |s| && s[r.value] == '/' && '/' !in s[..r.value]
    ensures r.None? ==> '/' !in s
  {
    if s == [] then None
    else if s[0] == '/' then Some(0)
    else match SlashIndex(s[1..])
      case None => None
      case Some(i) =>
        assert s[..i + 1] == [s[0]] + s[1..][..i];
        Some(i + 1)
  }

  /** The address with its host bits (the last 32 - prefixLength bits) cleared. */
  function Mask(address: nat, prefixLength: PrefixLength): nat {
    ShiftLeft(ShiftRight(address, HostBits(prefixLength)), HostBits(prefixLength))
  }

  /**
   * `net.ParseCIDR` on IPv4 text "address/length": the address must parse,
   * the length must be a decimal numeral of at most 32. The network returned
   * is the masked address.
   */
  function ParseCIDR(s: string): (r: Option<Network>)
    ensures r.Some? ==> SlashIndex(s).Some? && ParseIP(s[..SlashIndex(s).value]).Some?
  {
    match SlashIndex(s)
    case None => None
    case Some(i) =>
      var address, length := ParseIP(s[..i]), s[i + 1..];
      if address.None? || length == [] || !AllDigits(length) || DecimalValue(length) > 32 then None
      else
        var n := DecimalValue(length);
        Some(Network(Mask(address.value, n), n))
  }

  /** Shifting left then right by the same amount gives the number back. */
  lemma {:induction false} ShiftRightOfShiftLeft(q: nat, k: nat)
    ensures ShiftRight(ShiftLeft(q, k), k) == q
  {
    if k > 0 {
      calc {
        ShiftRight(ShiftLeft(q, k), k);
        ShiftRight(2 * ShiftLeft(q, k - 1) / 2, k - 1);
        { assert 2 * ShiftLeft(q, k - 1) / 2 == ShiftLeft(q, k - 1); }
        ShiftRight(ShiftLeft(q, k - 1), k - 1);
        { ShiftRightOfShiftLeft(q, k - 1); }
        q;
      }
    }
  }

  /**
   * A parsed network has no host bits set (masking it again changes nothing)
   * and contains the address written before the slash.
   */
  lemma ParsedNetworkContainsItsAddress(s: string)
    requires ParseCIDR(s).Some?
    ensures Mask(ParseCIDR(s).value.base, ParseCIDR(s).value.prefixLength) == ParseCIDR(s).value.base
    ensures Contains(ParseCIDR(s).value, ParseIP(s[..SlashIndex(s).value]))
  {
    var i := SlashIndex(s).value;
    var address := ParseIP(s[..i]).value;
    var network := ParseCIDR(s).value;
    var k := HostBits(network.prefixLength);
    assert network.base == ShiftLeft(ShiftRight(address, k), k);
    ShiftRightOfShiftLeft(ShiftRight(address, k), k);
  }

  /** `IPNet.Contains`: an unparsed (nil) address is never contained. */
  predicate Contains(network: Network, address: Option<nat>) {
    var k := HostBits(network.prefixLength);
    address.Some? && ShiftRight(address.value, k) == ShiftRight(network.base, k)
  }

  /** A /32 network contains exactly its own address. */
  lemma HostNetworkContainsOnlyItsBase(network: Network, address: nat)
    requires network.prefixLength == 32
    ensures Contains(network, Some(address)) <==> address == network.base
  {
    assert HostBits(32) == 0;
  }
}
