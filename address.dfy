/** The address tools of `CombinedTool` in `src/main.rs`: `is_valid_ipv4`,
    and `is_ip_in_cidr`, which answers whether an IPv4 address lies in a
    CIDR range by the prefix match of section 3.1 of RFC 4632. Neither reads
    the counter, so both are functions of their text arguments alone. */
module Address {

  import opened Wrappers
  import opened Bits
  import opened Text
  import opened Net

  /** `is_valid_ipv4`: true exactly for the dotted-decimal form of some
      address. */
  function IsValidIpv4(ipStr: string): (r: bool)
    ensures r <==> exists a: Ipv4Addr :: ipStr == Format(a)
  {
    match ParseIpv4(ipStr)
    case Some(_) => true
    case None => false
  }

  /** The number an address stands for: its octets as base-256 digits,
      the first the most significant. */
  function AddressValue(a: Ipv4Addr): nat
  {
    var o := a.octets;
    o[0] as nat * 0x100_0000 + o[1] as nat * 0x1_0000 + o[2] as nat * 0x100 + o[3] as nat
  }

  /** One step of the octet fold, `(acc << 8) | octet as u32`: the top byte
      of `acc` is shifted out and `octet` fills the low byte. */
  function ShiftIn(acc: u32, octet: u8): (r: u32)
    ensures r == (acc % 0x100_0000) * 0x100 + octet
  {
    ShlByte(acc);
    Pow2Word();
    OrIntoLowBits(acc % 0x100_0000, octet, 8);
    Or(Shl(acc, 8), octet)
  }

  /** Octets read as base-256 digits, the first the most significant. */
  function BigEndian(octets: seq<u8>): nat
  {
    if octets == [] then 0 else octets[0] * Pow2(8 * (|octets| - 1)) + BigEndian(octets[1..])
  }

  /** `octets.iter().fold(acc, |acc, &octet| (acc << 8) | octet as u32)`: the
      octets are appended below `acc` as base-256 digits and everything above
      bit 31 is lost. */
  function Fold(acc: u32, octets: seq<u8>): (r: u32)
    ensures r == (acc * Pow2(8 * |octets|) + BigEndian(octets)) % WORD
    decreases |octets|
  {
    if octets == [] then
      acc
    else
      var shifted := ShiftIn(acc, octets[0]);
      var r := Fold(shifted, octets[1..]);
      FoldStep(acc, octets, shifted, r);
      r
  }

  /** One octet of the fold: the contract of the rest of the fold, applied
      to the shifted accumulator, gives the contract of the whole. */
  lemma FoldStep(acc: u32, octets: seq<u8>, shifted: nat, r: nat)
    requires octets != [] && shifted == (acc % 0x100_0000) * 0x100 + octets[0]
    requires r == (shifted * Pow2(8 * |octets[1..]|) + BigEndian(octets[1..])) % WORD
    ensures r == (acc * Pow2(8 * |octets|) + BigEndian(octets)) % WORD
  {
    var rest := octets[1..];
    var p, b := Pow2(8 * |rest|), BigEndian(rest);
    Pow2Word();
    Pow2Add(8, 8 * |rest|);
    assert Pow2(8 * |octets|) == 0x100 * p;
    assert BigEndian(octets) == octets[0] * p + b;
    FoldShift(acc, octets[0], p, b);
  }

  /** Shifting the accumulator before or after reducing modulo 2^32 makes no
      difference. */
  lemma FoldShift(acc: u32, octet: u8, p: nat, b: nat)
    ensures (((acc % 0x100_0000) * 0x100 + octet) * p + b) % WORD
            == (acc * (0x100 * p) + (octet * p + b)) % WORD
  {
    var q, m := acc / 0x100_0000, acc % 0x100_0000;
    var x := (m * 0x100 + octet) * p + b;
    assert acc * (0x100 * p) == (q * p) * WORD + m * 0x100 * p by {
      assert acc == q * 0x100_0000 + m;
    }
    assert acc * (0x100 * p) + (octet * p + b) == x + (q * p) * WORD;
    DivModUnique(x + (q * p) * WORD, WORD, x / WORD + q * p, x % WORD);
  }

  /** `octets().iter().fold(0u32, ...)`: the fold loses no octet, so it is
      the address's number, below 2^32. */
  function ToU32(a: Ipv4Addr): (r: u32)
    ensures r == AddressValue(a)
  {
    BigEndianFour(a.octets);
    DivModUnique(BigEndian(a.octets), WORD, 0, BigEndian(a.octets));
    Fold(0, a.octets)
  }

  /** Four octets as base-256 digits are the address's number. */
  lemma BigEndianFour(o: Octets)
    ensures BigEndian(o) == AddressValue(Ipv4Addr(o))
  {
    Pow2Word();
    Pow2Add(8, 8);
    assert o[1..][1..] == o[2..] && o[2..][1..] == o[3..] && o[3..][1..] == [];
    var b3: nat := o[3];
    var b2: nat := o[2] as nat * 0x100 + b3;
    var b1: nat := o[1] as nat * 0x1_0000 + b2;
    assert BigEndian(o[3..]) == b3;
    assert BigEndian(o[2..]) == b2;
    assert BigEndian(o[1..]) == b1;
  }

  /** The subnet mask: none of the 32 bits for a prefix of length 0, otherwise
      `!0u32 << (32 - prefixLen)`; either way exactly the top `prefixLen`
      bits are set. */
  function Mask(prefixLen: nat): (mask: u32)
    requires prefixLen <= 32
    ensures mask == WORD - Pow2(32 - prefixLen)
  {
    Pow2Word();
    if prefixLen == 0 then 0
    else
      ShlAllOnes(32 - prefixLen);
      Shl(Not(0), 32 - prefixLen)
  }

  /** `(ip_u32 & mask) == (network_u32 & mask)`: the two addresses agree on
      their first `prefixLen` bits. */
  function InSubnet(ip: Ipv4Addr, network: Ipv4Addr, prefixLen: nat): (r: bool)
    requires prefixLen <= 32
    ensures r <==> AddressValue(ip) / Pow2(32 - prefixLen) == AddressValue(network) / Pow2(32 - prefixLen)
  {
    var ipU32 := ToU32(ip);
    var networkU32 := ToU32(network);
    var mask := Mask(prefixLen);
    SameHighBits(ipU32, networkU32, 32 - prefixLen);
    And(ipU32, mask) == And(networkU32, mask)
  }

  /** `is_ip_in_cidr`: every input it cannot read yields `false`. */
  function IsIpInCidr(ipStr: string, cidrStr: string): (r: bool)
    ensures ParseIpv4(ipStr).None? ==> !r
    ensures |Split(cidrStr, '/')| != 2 ==> !r
    ensures |Split(cidrStr, '/')| == 2 && ParseIpv4(Split(cidrStr, '/')[0]).None? ==> !r
    ensures |Split(cidrStr, '/')| == 2 && ParseU8(Split(cidrStr, '/')[1]).None? ==> !r
    ensures (|Split(cidrStr, '/')| == 2 && ParseU8(Split(cidrStr, '/')[1]).Some?
             && ParseU8(Split(cidrStr, '/')[1]).value > 32) ==> !r
  {
    match ParseIpv4(ipStr)
    case None => false
    case Some(ip) =>
      var parts := Split(cidrStr, '/');
      if |parts| != 2 then false
      else
        match ParseIpv4(parts[0])
        case None => false
        case Some(network) =>
          match ParseU8(parts[1])
          case None => false
          case Some(prefixLen) =>
            if prefixLen <= 32 then InSubnet(ip, network, prefixLen) else false
  }

  /** Containment as section 3.1 of RFC 4632 describes it, stated on the
      texts: the candidate is the dotted-decimal form of an address, the
      range is the form of a network address, a `/` and a prefix length of at
      most 32, and the two addresses have the same first prefix-length bits. */
  ghost predicate InRange(ipStr: string, cidrStr: string)
  {
    exists ip: Ipv4Addr, network: Ipv4Addr, prefixText: string ::
      ipStr == Format(ip) && cidrStr == Format(network) + "/" + prefixText
      && ParseU8(prefixText).Some? && ParseU8(prefixText).value <= 32
      && AddressValue(ip) / Pow2(32 - ParseU8(prefixText).value)
         == AddressValue(network) / Pow2(32 - ParseU8(prefixText).value)
  }

  /** `is_ip_in_cidr` answers exactly the containment question. */
  lemma IsIpInCidrExact(ipStr: string, cidrStr: string)
    ensures IsIpInCidr(ipStr, cidrStr) <==> InRange(ipStr, cidrStr)
  {
    if IsIpInCidr(ipStr, cidrStr) {
      IsIpInCidrSound(ipStr, cidrStr);
    }
    if InRange(ipStr, cidrStr) {
      var ip: Ipv4Addr, network: Ipv4Addr, prefixText: string :|
        ipStr == Format(ip) && cidrStr == Format(network) + "/" + prefixText
        && ParseU8(prefixText).Some? && ParseU8(prefixText).value <= 32
        && AddressValue(ip) / Pow2(32 - ParseU8(prefixText).value)
           == AddressValue(network) / Pow2(32 - ParseU8(prefixText).value);
      IsIpInCidrOnForms(ip, network, prefixText);
    }
  }

  lemma IsIpInCidrSound(ipStr: string, cidrStr: string)
    requires IsIpInCidr(ipStr, cidrStr)
    ensures InRange(ipStr, cidrStr)
  {
    var ip := ParseIpv4(ipStr).value;
    var parts := Split(cidrStr, '/');
    var network := ParseIpv4(parts[0]).value;
    var prefixText := parts[1];
    var prefixLen := ParseU8(prefixText).value;
    assert prefixLen <= 32 && InSubnet(ip, network, prefixLen);
    assert cidrStr == Format(network) + "/" + prefixText by {
      JoinSplit(cidrStr, '/');
      assert parts[1..] == [prefixText];
    }
    assert AddressValue(ip) / Pow2(32 - prefixLen) == AddressValue(network) / Pow2(32 - prefixLen);
  }

  /** On a dotted-decimal candidate and a range written as network, `/`
      and a prefix length of at most 32, the answer is the masked
      comparison. */
  lemma IsIpInCidrOnForms(ip: Ipv4Addr, network: Ipv4Addr, prefixText: string)
    requires ParseU8(prefixText).Some? && ParseU8(prefixText).value <= 32
    ensures IsIpInCidr(Format(ip), Format(network) + "/" + prefixText)
            == InSubnet(ip, network, ParseU8(prefixText).value)
  {
    var cidrStr := Format(network) + "/" + prefixText;
    CidrSplits(network, prefixText);
    var parts := Split(cidrStr, '/');
    assert parts[0] == Format(network) && parts[1] == prefixText;
  }

  /** A range written as address, `/`, prefix text splits back into those two
      pieces. */
  lemma CidrSplits(network: Ipv4Addr, prefixText: string)
    requires ParseU8(prefixText).Some?
    ensures Split(Format(network) + "/" + prefixText, '/') == [Format(network), prefixText]
  {
    var parts := [Format(network), prefixText];
    FormatChars(network, '/');
    ParseU8Chars(prefixText, '/');
    SplitJoin(parts, '/');
    assert parts[1..] == [prefixText];
  }

  /** With prefix length 0 every valid candidate is in the range, whatever
      the network address. */
  lemma ZeroPrefixContainsAll(ip: Ipv4Addr, network: Ipv4Addr, prefixText: string)
    requires ParseU8(prefixText) == Some(0)
    ensures IsIpInCidr(Format(ip), Format(network) + "/" + prefixText)
  {
    IsIpInCidrOnForms(ip, network, prefixText);
    Pow2Word();
  }

  /** With prefix length 32 the range holds its network address alone. */
  lemma FullPrefixIsEquality(ip: Ipv4Addr, network: Ipv4Addr)
    ensures InSubnet(ip, network, 32) <==> ip == network
  {
    if InSubnet(ip, network, 32) {
      AddressValueInjective(ip, network);
    }
  }

  /** Distinct addresses have distinct numbers. */
  lemma AddressValueInjective(a: Ipv4Addr, b: Ipv4Addr)
    requires AddressValue(a) == AddressValue(b)
    ensures a == b
  {
    var x, y := a.octets, b.octets;
    var hx: nat := x[0] * 0x1_0000 + x[1] * 0x100 + x[2] as nat;
    var hy: nat := y[0] * 0x1_0000 + y[1] * 0x100 + y[2] as nat;
    DivModUnique(AddressValue(a), 0x100, hx, x[3]);
    DivModUnique(AddressValue(b), 0x100, hy, y[3]);
    var gx: nat := x[0] * 0x100 + x[1] as nat;
    var gy: nat := y[0] * 0x100 + y[1] as nat;
    DivModUnique(hx, 0x100, gx, x[2]);
    DivModUnique(hy, 0x100, gy, y[2]);
    DivModUnique(gx, 0x100, x[0], x[1]);
    DivModUnique(gy, 0x100, y[0], y[1]);
    assert x == y;
  }

  /** A shorter prefix of the same network is a wider range: what matches
      on `prefixLen` bits matches on fewer. */
  lemma ShorterPrefixContains(ip: Ipv4Addr, network: Ipv4Addr, prefixLen: nat, shorter: nat)
    requires shorter <= prefixLen <= 32
    requires InSubnet(ip, network, prefixLen)
    ensures InSubnet(ip, network, shorter)
  {
    QuotientCoarsens(AddressValue(ip), AddressValue(network), 32 - prefixLen, prefixLen - shorter);
  }

  /** The network address's own host bits never change the answer. */
  lemma HostBitsIgnored(ip: Ipv4Addr, n1: Ipv4Addr, n2: Ipv4Addr, prefixLen: nat)
    requires prefixLen <= 32
    requires AddressValue(n1) / Pow2(32 - prefixLen) == AddressValue(n2) / Pow2(32 - prefixLen)
    ensures InSubnet(ip, n1, prefixLen) == InSubnet(ip, n2, prefixLen)
  {
  }

  /** The mask of a `/prefixLen` network has exactly its top `prefixLen`
      bits set. */
  lemma MaskTopBits(prefixLen: nat, i: nat)
    requires prefixLen <= 32 && i < 32
    ensures Bit(Mask(prefixLen), i) == 1 <==> 32 - prefixLen <= i
  {
    MaskBits(32 - prefixLen, i);
  }

  /** An address is in a `/prefixLen` network exactly when it agrees with
      the network address on the top `prefixLen` bits. */
  lemma InSubnetAgreesOnTopBits(ip: Ipv4Addr, network: Ipv4Addr, prefixLen: nat)
    requires prefixLen <= 32
    ensures InSubnet(ip, network, prefixLen)
            <==> Agree(AddressValue(ip), AddressValue(network), 32 - prefixLen, 32)
  {
    Pow2Word();
    SameQuotientSameBits(ToU32(ip), ToU32(network), 32 - prefixLen, 32);
  }
}
