/** The library revision's address/label conversions (`DomainFromIP`, `IPFromDomain`). */
module PkgDomain {
  import opened Results
  import opened Text
  import opened Base32
  import opened LabelCodec
  import opened IPNet

  /** The label naming the server at `target`: 26 lower-case base32 characters. */
  function DomainFromIP(target: Address): (s: string)
    ensures |s| == LabelLength
    ensures forall i :: 0 <= i < |s| ==> IsSymbol(ToUpper(s)[i]) && !IsUpperAscii(s[i])
  {
    EncodeSixteen(target);
    var s := EncodeLabel(target);
    assert forall i :: 0 <= i < |s| ==> IsSymbol(ToUpper(s)[i]) by {
      UpperOfLower(Encode26(target));
      forall i | 0 <= i < |s| ensures IsSymbol(ToUpper(s)[i]) {
        assert IsSymbol(Encode26(target)[i]);
      }
    }
    s
  }

  /** The server address a label names. A decoder error is passed on; a payload that is not 16
      bytes is an invalid subdomain; the nil check on the converted slice cannot fire. */
  function IPFromDomain(domain: string): (r: Result<Address>)
    ensures r.Success? <==> IsLabelShape(Normalize(domain))
    ensures r.Success? ==> r.value == Decode26(Normalize(domain)[..LabelLength])
    ensures r == Failure(CorruptInput) <==> Payload(domain).None?
    ensures r.Failure? ==> r.error in {CorruptInput, InvalidSubdomain}
  {
    PayloadSixteen(domain);
    match Payload(domain)
    case None => Failure(CorruptInput)
    case Some(data) =>
      if |data| != 16 then Failure(InvalidSubdomain)
      else if |data| == 0 then Failure(InvalidIPData)
      else var ip: Address := data; Success(ip)
  }

  /** Round trip: the label of an address names that address. */
  lemma IPFromDomainOfDomainFromIP(ip: Address)
    ensures IPFromDomain(DomainFromIP(ip)) == Success(ip)
  {
    EncodeLabelRoundTrip(ip);
  }

  /** A label has no double quote, so it can stand inside a JSON string as is. */
  lemma DomainFromIPQuoteFree(ip: Address)
    ensures '"' !in DomainFromIP(ip)
  {
    var s := DomainFromIP(ip);
    forall i | 0 <= i < |s| ensures s[i] != '"' {
      assert IsSymbol(ToUpper(s)[i]);
    }
  }

  /** Labels are read case-insensitively. */
  lemma IPFromDomainIgnoresCase(domain: string)
    ensures IPFromDomain(ToLower(domain)) == IPFromDomain(domain)
    ensures IPFromDomain(ToUpper(domain)) == IPFromDomain(domain)
  {
    PayloadIgnoresCase(domain);
  }

  // ---------------------------------------------------------------------------------------------
  // The conversion example of domain_test.go

  const TestAddress: Address := [0x02, 0x03, 0xf1, 0x5a, 0xc3, 0x23, 0x83, 0xaa, 0xcd, 0xb0, 0x2e, 0x84, 0x56, 0xb3, 0xe8, 0x5c]
  const TestLabel := "aib7cwwdeob2vtnqf2cfnm7ilq"
  const TestUpper := "AIB7CWWDEOB2VTNQF2CFNM7ILQ"

  lemma TestBlock0() ensures EncodeBlock([0x02, 0x03, 0xf1, 0x5a, 0xc3]) == "AIB7CWWD" { }
  lemma TestBlock1() ensures EncodeBlock([0x23, 0x83, 0xaa, 0xcd, 0xb0]) == "EOB2VTNQ" { }
  lemma TestBlock2() ensures EncodeBlock([0x2e, 0x84, 0x56, 0xb3, 0xe8]) == "F2CFNM7I" { }
  lemma TestBlock3() ensures EncodeBlock([0x5c]) == "LQ======" { }

  lemma TestBlocks()
    ensures TestAddress == [0x02, 0x03, 0xf1, 0x5a, 0xc3] + [0x23, 0x83, 0xaa, 0xcd, 0xb0] + [0x2e, 0x84, 0x56, 0xb3, 0xe8] + [0x5c]
    ensures "AIB7CWWD" + "EOB2VTNQ" + "F2CFNM7I" + "LQ======"[..2] == TestUpper
  {
  }

  lemma TestEncode26()
    ensures Encode26(TestAddress) == TestUpper
  {
    TestBlocks();
    Encode26OfBlocks([0x02, 0x03, 0xf1, 0x5a, 0xc3], [0x23, 0x83, 0xaa, 0xcd, 0xb0], [0x2e, 0x84, 0x56, 0xb3, 0xe8], 0x5c);
    TestBlock0();
    TestBlock1();
    TestBlock2();
    TestBlock3();
  }

  lemma TestLower()
    ensures ToLower(TestUpper) == TestLabel
  {
    LowerByChars(TestUpper, TestLabel);
  }

  lemma TestEncodeLabel()
    ensures EncodeLabel(TestAddress) == TestLabel
  {
    TestEncode26();
    TestLower();
  }

  /** 203:f15a:c323:83aa:cdb0:2e84:56b3:e85c is named "aib7cwwdeob2vtnqf2cfnm7ilq". */
  lemma TestDomainFromIP()
    ensures DomainFromIP(TestAddress) == TestLabel
  {
    TestEncodeLabel();
  }

  /** ... and that label names the address back. */
  lemma TestIPFromDomain()
    ensures IPFromDomain(TestLabel) == Success(TestAddress)
  {
    TestDomainFromIP();
    IPFromDomainOfDomainFromIP(TestAddress);
  }
}
