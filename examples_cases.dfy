/** Sample calls of the validator and the range check, derived from the
    general lemmas. */
module Examples {

  import opened Wrappers
  import opened Bits
  import opened Text
  import opened Net
  import opened Address

  lemma ShowSamples()
    ensures Show(0) == "0" && Show(1) == "1" && Show(2) == "2" && Show(4) == "4"
    ensures Show(5) == "5" && Show(10) == "10" && Show(24) == "24"
    ensures Show(168) == "168" && Show(192) == "192" && Show(256) == "256"
  {
  }

  /** `is_valid_ipv4`: accepted and rejected inputs. */
  lemma ValidatorAccepts()
    ensures IsValidIpv4("192.168.1.1")
  {
    var a := Ipv4Addr([192, 168, 1, 1]);
    assert Format(a) == "192.168.1.1" by {
      ShowSamples();
      FormatPieces(a);
    }
  }

  lemma RejectsOutOfRangeOctet()
    ensures !IsValidIpv4("256.1.1.1")
  {
    var parts := ["256", "1", "1", "1"];
    assert Split("256.1.1.1", '.') == parts by {
      JoinFour("256", "1", "1", "1", '.');
      assert Join(parts, '.') == "256.1.1.1";
      SplitJoin(parts, '.');
    }
    assert !IsOctetText("256") by {
      ShowSamples();
    }
    assert ParseIpv4("256.1.1.1") == None;
  }

  lemma RejectsLeadingZero()
    ensures !IsValidIpv4("01.2.3.4")
  {
    var parts := ["01", "2", "3", "4"];
    assert Split("01.2.3.4", '.') == parts by {
      JoinFour("01", "2", "3", "4", '.');
      assert Join(parts, '.') == "01.2.3.4";
      SplitJoin(parts, '.');
    }
  }

  lemma RejectsNonAddress()
    ensures !IsValidIpv4("abc")
  {
    SplitNone("abc", '.');
  }

  lemma RejectsThreeOctets()
    ensures !IsValidIpv4("1.2.3")
  {
    var parts := ["1", "2", "3"];
    assert Split("1.2.3", '.') == parts by {
      assert parts[1..] == ["2", "3"] && parts[1..][1..] == ["3"];
      assert Join(["2", "3"], '.') == "2.3";
      assert Join(parts, '.') == "1.2.3";
      SplitJoin(parts, '.');
    }
  }

  /** `is_ip_in_cidr` on the sample inputs. */
  lemma CidrMatchesSubnet()
    ensures IsIpInCidr("192.168.1.5", "192.168.1.0/24")
  {
    InsideSampleTexts(Ipv4Addr([192, 168, 1, 5]), Ipv4Addr([192, 168, 1, 0]), "192.168.1.5", "192.168.1.0/24");
  }

  lemma CidrRejectsOtherSubnet()
    ensures !IsIpInCidr("192.168.2.5", "192.168.1.0/24")
  {
    OutsideSampleTexts(Ipv4Addr([192, 168, 2, 5]), Ipv4Addr([192, 168, 1, 0]), "192.168.2.5", "192.168.1.0/24");
  }

  lemma CidrZeroPrefix()
    ensures IsIpInCidr("10.0.0.1", "0.0.0.0/0")
  {
    ZeroSampleTexts(Ipv4Addr([10, 0, 0, 1]), Ipv4Addr([0, 0, 0, 0]), "10.0.0.1", "0.0.0.0/0");
  }

  /** The samples with the addresses and texts passed in, so that the solver
      reasons about them rather than evaluating the calls. */
  lemma InsideSampleTexts(ip: Ipv4Addr, network: Ipv4Addr, ipStr: string, cidrStr: string)
    requires ip.octets == [192, 168, 1, 5] && network.octets == [192, 168, 1, 0]
    requires ipStr == "192.168.1.5" && cidrStr == "192.168.1.0/24"
    ensures IsIpInCidr(ipStr, cidrStr)
  {
    ShowSamples();
    FormatSample(ip, "192", "168", "1", "5");
    FormatSample(network, "192", "168", "1", "0");
    Pow2Word();
    CidrSample(ip, network, ipStr, cidrStr, "24", 24);
  }

  lemma OutsideSampleTexts(ip: Ipv4Addr, network: Ipv4Addr, ipStr: string, cidrStr: string)
    requires ip.octets == [192, 168, 2, 5] && network.octets == [192, 168, 1, 0]
    requires ipStr == "192.168.2.5" && cidrStr == "192.168.1.0/24"
    ensures !IsIpInCidr(ipStr, cidrStr)
  {
    ShowSamples();
    FormatSample(ip, "192", "168", "2", "5");
    FormatSample(network, "192", "168", "1", "0");
    Pow2Word();
    CidrSample(ip, network, ipStr, cidrStr, "24", 24);
  }

  lemma ZeroSampleTexts(ip: Ipv4Addr, network: Ipv4Addr, ipStr: string, cidrStr: string)
    requires ip.octets == [10, 0, 0, 1] && network.octets == [0, 0, 0, 0]
    requires ipStr == "10.0.0.1" && cidrStr == "0.0.0.0/0"
    ensures IsIpInCidr(ipStr, cidrStr)
  {
    ShowSamples();
    FormatSample(ip, "10", "0", "0", "1");
    FormatSample(network, "0", "0", "0", "0");
    Pow2Word();
    CidrSample(ip, network, ipStr, cidrStr, "0", 0);
  }

  /** A sample range check reduced to the masked comparison, once the sample
      texts are known to be the forms of the sample addresses. */
  lemma CidrSample(ip: Ipv4Addr, network: Ipv4Addr, ipStr: string, cidrStr: string,
                   prefixText: string, prefixLen: u8)
    requires prefixLen <= 32 && Show(prefixLen) == prefixText
    requires ipStr == Format(ip) && cidrStr == Format(network) + "/" + prefixText
    ensures IsIpInCidr(ipStr, cidrStr) == InSubnet(ip, network, prefixLen)
  {
    ParseU8Show(prefixLen);
    IsIpInCidrOnForms(ip, network, prefixText);
  }

  lemma CidrRejectsMalformedRange()
    ensures !IsIpInCidr("1.2.3.4", "not-a-cidr")
  {
    SplitNone("not-a-cidr", '/');
  }

  lemma CidrRejectsIpv6()
    ensures !IsIpInCidr("::1", "::/0")
  {
    SplitNone("::1", '.');
  }

  lemma FormatSample(a: Ipv4Addr, p0: string, p1: string, p2: string, p3: string)
    requires Show(a.octets[0]) == p0 && Show(a.octets[1]) == p1
    requires Show(a.octets[2]) == p2 && Show(a.octets[3]) == p3
    ensures Format(a) == p0 + "." + (p1 + "." + (p2 + "." + p3))
  {
    FormatPieces(a);
  }
}
