/** The command-line tool under cmd/meshname: `reverse_lookup` prints the meshname of an address
    and `lookup` reads the address back out of a name. Results are kept as bytes; their textual
    form is not modelled. */
module CmdMeshname {
  import opened Results
  import opened Text
  import opened Base32
  import opened LabelCodec
  import opened IPNet
  import opened ZoneConfig
  import PkgDomain

  /** The suffix `reverse_lookup` appends: note the leading dot and the missing final dot. */
  const DomainZone := ".meshname"

  /** The name of the server at `target`: its label followed by `.meshname`. */
  function ReverseLookup(parseIP: ParseIP, target: string): (r: Result<string>)
    ensures r.Failure? <==> parseIP(target).None?
    ensures r.Failure? ==> r.error == InvalidIPAddress
    ensures r.Success? ==> |r.value| == LabelLength + |DomainZone| && r.value[LabelLength..] == DomainZone
    ensures r.Success? ==> r.value[..LabelLength] == PkgDomain.DomainFromIP(parseIP(target).value)
    ensures r.Success? ==> forall i :: 0 <= i < LabelLength ==> IsSymbol(UpperChar(r.value[i])) && !IsUpperAscii(r.value[i])
  {
    match parseIP(target)
    case None => Failure(InvalidIPAddress)
    case Some(ip) =>
      var sub := PkgDomain.DomainFromIP(ip);
      assert sub == EncodeLabel(ip);
      var name := sub + DomainZone;
      assert name[..LabelLength] == sub;
      assert forall i :: 0 <= i < LabelLength ==> IsSymbol(UpperChar(name[i])) by {
        forall i | 0 <= i < LabelLength ensures IsSymbol(UpperChar(name[i])) {
          assert name[i] == sub[i] && ToUpper(sub)[i] == UpperChar(sub[i]);
        }
      }
      Success(name)
  }

  /** The label `lookup` reads: the third piece from the end when `target` is cut at every dot. */
  function LookupLabel(target: string): string
    requires |Split(target, '.')| >= 3
  {
    var parts := Split(target, '.');
    parts[|parts| - 3]
  }

  /** `lookup` as written: at least three pieces, a 26-character label, and a successful decode.
      The reversed `HasSuffix` guard and the nil check are kept although neither can fire. */
  function Lookup(target: string): (r: Result<seq<bv8>>)
    ensures r.Success? ==> |Split(target, '.')| >= 3 && |LookupLabel(target)| == LabelLength
                           && Payload(LookupLabel(target)) == Some(r.value)
    ensures |Split(target, '.')| < 3 ==> r == Failure(InvalidDomain)
    ensures (r.Success? && |r.value| == 16) <==>
            |Split(target, '.')| >= 3 && |LookupLabel(target)| == LabelLength && IsLabelShape(Normalize(LookupLabel(target)))
  {
    var parts := Split(target, '.');
    if |parts| < 3 then Failure(InvalidDomain)
    else
      SuffixGuardInert(target);
      if HasSuffix(DomainZone, target) then Failure(InvalidDomain)
      else
      var sub := parts[|parts| - 3];
      if |sub| != LabelLength then Failure(InvalidLength)
      else
        PayloadSixteen(sub);
        match Payload(sub)
        case None => Failure(CorruptInput)
        case Some(data) => if |data| == 0 then Failure(InvalidIPAddress) else Success(data)
  }

  /** With three or more pieces the target has two or more dots, so it cannot be a suffix of
      `.meshname`, which has one. */
  lemma SuffixGuardInert(target: string)
    requires |Split(target, '.')| >= 3
    ensures !HasSuffix(DomainZone, target)
  {
    ZoneHasOneDot();
    if HasSuffix(DomainZone, target) {
      var k := |DomainZone| - |target|;
      assert target == DomainZone[k..];
      CountSuffix(DomainZone, k, '.');
    }
  }

  lemma ZoneHasOneDot()
    ensures Count(DomainZone, '.') == 1
  {
    assert DomainZone == ['.'] + "meshname";
    assert '.' !in "meshname";
    SplitNoSep("meshname", '.');
    assert DomainZone[1..] == "meshname";
  }

  /** `lookup` with the 16-byte check the daemons make: only a decode of exactly 16 bytes is an
      address. */
  function LookupChecked(target: string): (r: Result<Address>)
    ensures r.Success? <==>
            |Split(target, '.')| >= 3 && |LookupLabel(target)| == LabelLength && IsLabelShape(Normalize(LookupLabel(target)))
    ensures r.Success? ==> r.value == Decode26(Normalize(LookupLabel(target))[..LabelLength])
  {
    match Lookup(target)
    case Failure(e) => Failure(e)
    case Success(data) =>
      PayloadSixteen(LookupLabel(target));
      if |data| != 16 then Failure(InvalidSubdomain) else var ip: Address := data; Success(ip)
  }

  /** The checked lookup agrees with the written one whenever that one yields 16 bytes. */
  lemma CheckedAgrees(target: string)
    ensures LookupChecked(target).Success? <==> Lookup(target).Success? && |Lookup(target).value| == 16
    ensures LookupChecked(target).Success? ==> LookupChecked(target).value == Lookup(target).value
  {
  }

  // ---------------------------------------------------------------------------------------------
  // Round trip through the printed name

  lemma ZoneParts()
    ensures DomainZone == ['.'] + "meshname" && '.' !in "meshname"
  {
  }

  lemma {:induction false} SplitTwo(a: string, b: string)
    requires '.' !in a && '.' !in b
    ensures Split(a + ['.'] + b, '.') == [a, b]
  {
    SplitCons(a, '.', b);
    SplitNoSep(b, '.');
  }

  lemma {:induction false} SplitTwoDot(a: string, b: string)
    requires '.' !in a && '.' !in b
    ensures Split(a + ['.'] + b + ['.'], '.') == [a, b, ""]
  {
    assert a + ['.'] + b + ['.'] == a + ['.'] + (b + ['.'] + "");
    SplitCons(a, '.', b + ['.'] + "");
    SplitCons(b, '.', "");
  }

  /** A dot-free label followed by `.meshname` is two pieces, three with a final dot. */
  lemma ZoneNameSplit(sub: string)
    requires '.' !in sub
    ensures Split(sub + DomainZone, '.') == [sub, "meshname"]
    ensures Split(sub + DomainZone + ".", '.') == [sub, "meshname", ""]
  {
    ZoneParts();
    var m := "meshname";
    assert sub + DomainZone == sub + ['.'] + m;
    SplitTwo(sub, m);
    assert sub + DomainZone + "." == sub + ['.'] + m + ['.'];
    SplitTwoDot(sub, m);
  }

  lemma LabelHasNoDot(ip: Address)
    ensures '.' !in EncodeLabel(ip)
  {
    var s := PkgDomain.DomainFromIP(ip);
    assert s == EncodeLabel(ip);
    forall i | 0 <= i < |s| ensures s[i] != '.' {
      assert IsSymbol(ToUpper(s)[i]);
    }
  }

  /** The printed name has no final dot, so it has only two pieces and `lookup` refuses it; with
      the final dot added, both lookups recover the address. */
  lemma RoundTrip(parseIP: ParseIP, target: string)
    requires parseIP(target).Some?
    ensures var name := ReverseLookup(parseIP, target).value;
            && Lookup(name) == Failure(InvalidDomain)
            && Lookup(name + ".") == Success(parseIP(target).value)
            && LookupChecked(name + ".") == Success(parseIP(target).value)
  {
    var ip := parseIP(target).value;
    var sub := EncodeLabel(ip);
    LabelHasNoDot(ip);
    ZoneNameSplit(sub);
    assert LookupLabel(sub + DomainZone + ".") == sub;
    EncodeLabelRoundTrip(ip);
    CheckedAgrees(sub + DomainZone + ".");
  }

  // ---------------------------------------------------------------------------------------------
  // A label of 26 characters that is not an address

  /** Two alphabet characters and 24 line feeds: 26 characters, of which the decoder keeps two. */
  const NewlineLabel := "AA" + seq(24, _ => '\n')
  const NewlineTarget := NewlineLabel + ".meshname."

  lemma {:induction false} StripAllNewlines(n: nat)
    ensures StripNewlines(seq(n, _ => '\n')) == []
  {
    if n > 0 {
      var s := seq(n, _ => '\n');
      assert s[1..] == seq(n - 1, _ => '\n');
      StripAllNewlines(n - 1);
    }
  }

  lemma NewlineLabelNormal()
    ensures |NewlineLabel| == LabelLength
    ensures Normalize(NewlineLabel) == "AA"
  {
    var lf := seq(24, _ => '\n');
    assert ToUpper(NewlineLabel) == NewlineLabel;
    StripNewlinesAppend("AA", lf);
    StripAllNewlines(24);
    StripNewlinesNoop("AA");
  }

  /** Two alphabet characters and the padding decode to one byte. */
  lemma ShortPaddedDecode()
    ensures DecodeQuanta("AA" + Padding) == Some([0])
  {
    var t := "AA" + Padding;
    assert AllSymbols(t[..2]) && AllPad(t[2..8]);
    DecodeFinalStep(t);
    assert t[..2] == "AA";
    assert SymbolValue('A') == Some(0);
    assert "AA"[1..] == "A" && "A"[1..] == "";
    assert Values("AA") == [0, 0];
    var d := [0, 0] + Zeros(6);
    assert d[0] == 0 && d[1] == 0;
    assert Pack([0, 0]) == [(d[0] << 3) | (d[1] >> 2)];
  }

  lemma NewlineLabelPayload()
    ensures |NewlineLabel| == LabelLength
    ensures Payload(NewlineLabel) == Some([0])
  {
    NewlineLabelNormal();
    PayloadOfNormalized(NewlineLabel);
    ShortPaddedDecode();
  }

  lemma NewlineTargetLabel()
    ensures |Split(NewlineTarget, '.')| == 3 && LookupLabel(NewlineTarget) == NewlineLabel
  {
    assert '.' !in NewlineLabel;
    ZoneParts();
    assert NewlineTarget == NewlineLabel + ['.'] + "meshname" + ['.'];
    SplitTwoDot(NewlineLabel, "meshname");
  }

  /** As written, `lookup` accepts this 26-character label and returns a one-byte "address". */
  lemma NewlineLabelAccepted()
    ensures Lookup(NewlineTarget) == Success([0])
  {
    NewlineTargetLabel();
    NewlineLabelPayload();
    SuffixGuardInert(NewlineTarget);
  }

  /** The checked lookup refuses it. */
  lemma NewlineLabelRefused()
    ensures LookupChecked(NewlineTarget) == Failure(InvalidSubdomain)
  {
    NewlineLabelAccepted();
  }
}
