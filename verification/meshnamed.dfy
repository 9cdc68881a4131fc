/** The top-level daemon meshnamed.go: an authoritative server for `mesh.arpa.` with no record
    table at all. It synthesises an AAAA answer from the label's address and an SRV answer for a
    fixed list of well-known services, and never forwards. */
module Meshnamed {
  import opened Results
  import opened Text
  import opened LabelCodec
  import opened Dns
  import opened IPNet
  import CmdMeshnamed
  import SrcServer
  import PkgDomain

  const DomainZone := "mesh.arpa."

  /** Every synthesised record lives for the largest 32-bit TTL. */
  const MaxTtl: nat := 4294967295

  /** The service ports SRV questions are answered with, keyed by `_service._proto`. */
  const SrvPortMap: map<string, nat> := map[
    "_xmpp-client._tcp" := 5222,
    "_xmpp-server._tcp" := 5269,
    "_submission._tcp" := 587,
    "_imap._tcp" := 143,
    "_imaps._tcp" := 993,
    "_pop3._tcp" := 110,
    "_pop3s._tcp" := 995,
    "_matrix._tcp" := 8448,
    "_sip._tcp" := 5060,
    "_sip._udp" := 5060,
    "_sips._tcp" := 5061]

  /** Indexing a Go map: a missing key reads as the zero port. */
  function PortOf(srv: string): nat
  {
    if srv in SrvPortMap then SrvPortMap[srv] else 0
  }

  /** The zero test on the port is the same as a membership test, and every port fits in 16
      bits. */
  lemma PortOfIffKnown(srv: string)
    ensures PortOf(srv) != 0 <==> srv in SrvPortMap
    ensures 0 <= PortOf(srv) < 0x1_0000
  {
    if srv in SrvPortMap {
      var v := SrvPortMap[srv];
      assert v in {5222, 5269, 587, 143, 993, 110, 995, 8448, 5060, 5061};
    }
  }

  /** The server address a label names, provided `validSubnet` contains it: the same decode and
      subnet test as the cmd/meshnamed daemon. */
  function Lookup(validSubnet: IPNet, domain: string): (r: Result<Address>)
    ensures r.Success? <==> IsLabelShape(Normalize(domain)) && Contains(validSubnet, Decode26Of(domain))
    ensures r.Success? ==> r.value == Decode26Of(domain)
  {
    CmdMeshnamed.Lookup(validSubnet, domain)
  }

  function Decode26Of(domain: string): Address
    requires IsLabelShape(Normalize(domain))
  {
    Base32.Decode26(Normalize(domain)[..LabelLength])
  }

  /** The answer to one question, if any. */
  function Answer(validSubnet: IPNet, q: Question): (r: Option<RR>)
    ensures r.Some? ==> Answers(r.value, q) && r.value.header.ttl == MaxTtl
    ensures r.Some? ==> q.qtype in {TypeAAAA, TypeSRV}
  {
    if q.qclass != ClassINET then None
    else
      var labels := SplitDomainName(q.name);
      if |labels| < 3 then None
      else
        var sub := labels[|labels| - 3];
        match Lookup(validSubnet, sub)
        case Failure(_) => None
        case Success(ip) =>
          if q.qtype == TypeAAAA then
            Some(RR(Header(q.name, TypeAAAA, ClassINET, MaxTtl), AAAAData(ip)))
          else if q.qtype == TypeSRV then
            if |labels| < 5 then None
            else
              var srv := labels[0] + "." + labels[1];
              if PortOf(srv) != 0 then
                Some(RR(Header(q.name, TypeSRV, ClassINET, MaxTtl), SRVData(0, 0, PortOf(srv), sub + "." + DomainZone)))
              else None
          else None
  }

  /** The label that names the server: the third from the end. */
  function ServerLabel(q: Question): string
    requires |SplitDomainName(q.name)| >= 3
  {
    var labels := SplitDomainName(q.name);
    labels[|labels| - 3]
  }

  /** The service key of an SRV name: its first two labels. */
  function ServiceKey(q: Question): string
    requires |SplitDomainName(q.name)| >= 2
  {
    var labels := SplitDomainName(q.name);
    labels[0] + "." + labels[1]
  }

  /** An AAAA question is answered exactly when it is in class IN and its third-from-last label
      looks up inside the subnet, and the answer carries that address. */
  lemma AAAAIff(validSubnet: IPNet, q: Question)
    requires q.qtype == TypeAAAA
    ensures Answer(validSubnet, q).Some? <==>
            q.qclass == ClassINET && |SplitDomainName(q.name)| >= 3 && Lookup(validSubnet, ServerLabel(q)).Success?
    ensures Answer(validSubnet, q).Some? ==>
            Answer(validSubnet, q).value == RR(Header(q.name, TypeAAAA, ClassINET, MaxTtl), AAAAData(Lookup(validSubnet, ServerLabel(q)).value))
  {
  }

  /** An SRV question is answered exactly when, in addition, the name has at least five labels
      and its first two name a known service; the answer points at the server's own name. */
  lemma SRVIff(validSubnet: IPNet, q: Question)
    requires q.qtype == TypeSRV
    ensures Answer(validSubnet, q).Some? <==>
            && q.qclass == ClassINET && |SplitDomainName(q.name)| >= 5
            && Lookup(validSubnet, ServerLabel(q)).Success? && ServiceKey(q) in SrvPortMap
    ensures Answer(validSubnet, q).Some? ==>
            Answer(validSubnet, q).value
            == RR(Header(q.name, TypeSRV, ClassINET, MaxTtl), SRVData(0, 0, SrvPortMap[ServiceKey(q)], ServerLabel(q) + "." + DomainZone))
  {
    if |SplitDomainName(q.name)| >= 5 {
      PortOfIffKnown(ServiceKey(q));
    }
  }

  /** The answers of `qs`, question by question, skipping questions without one. */
  function Gather(qs: seq<Question>, answer: Question -> Option<RR>): (r: seq<RR>)
    ensures |r| <= |qs|
  {
    if |qs| == 0 then []
    else
      var rest := Gather(qs[1..], answer);
      match answer(qs[0])
      case None => rest
      case Some(x) => [x] + rest
  }

  lemma {:induction false} GatherIff(qs: seq<Question>, answer: Question -> Option<RR>, x: RR)
    ensures x in Gather(qs, answer) <==> exists i :: 0 <= i < |qs| && answer(qs[i]) == Some(x)
  {
    if |qs| > 0 {
      GatherIff(qs[1..], answer, x);
      if exists i :: 0 <= i < |qs| && answer(qs[i]) == Some(x) {
        var i :| 0 <= i < |qs| && answer(qs[i]) == Some(x);
        if i > 0 {
          assert qs[1..][i - 1] == qs[i];
        }
      }
      if exists j :: 0 <= j < |qs| - 1 && answer(qs[1..][j]) == Some(x) {
        var j :| 0 <= j < |qs| - 1 && answer(qs[1..][j]) == Some(x);
        assert qs[j + 1] == qs[1..][j];
      }
    }
  }

  /** One more question adds its answer, if any, at the end. */
  lemma {:induction false} GatherSnoc(qs: seq<Question>, q: Question, answer: Question -> Option<RR>)
    ensures Gather(qs + [q], answer) == Gather(qs, answer) + (if answer(q).Some? then [answer(q).value] else [])
  {
    if |qs| == 0 {
      assert qs + [q] == [q];
    } else {
      assert (qs + [q])[0] == qs[0];
      assert (qs + [q])[1..] == qs[1..] + [q];
      GatherSnoc(qs[1..], q, answer);
    }
  }

  /** The positions among the first `n` questions that `pick` selects. */
  function Positions(qs: seq<Question>, pick: Question -> bool, n: nat): (r: set<nat>)
    requires n <= |qs|
    ensures forall i :: i in r <==> 0 <= i < n && pick(qs[i])
  {
    if n == 0 then {} else Positions(qs, pick, n - 1) + (if pick(qs[n - 1]) then {n - 1} else {})
  }

  /** Each answered question among the first `n` contributes exactly one record. */
  lemma {:induction false} GatherPrefixLength(qs: seq<Question>, answer: Question -> Option<RR>, n: nat)
    requires n <= |qs|
    ensures |Gather(qs[..n], answer)| == |Positions(qs, q => answer(q).Some?, n)|
  {
    if n > 0 {
      GatherPrefixLength(qs, answer, n - 1);
      assert qs[..n] == qs[..n - 1] + [qs[n - 1]];
      GatherSnoc(qs[..n - 1], qs[n - 1], answer);
    }
  }

  /** A record occurs among the first `n` questions' answers as often as those questions are
      answered with it. */
  lemma {:induction false} GatherPrefixMultiplicity(qs: seq<Question>, answer: Question -> Option<RR>, n: nat, x: RR)
    requires n <= |qs|
    ensures multiset(Gather(qs[..n], answer))[x] == |Positions(qs, q => answer(q) == Some(x), n)|
  {
    if n > 0 {
      GatherPrefixMultiplicity(qs, answer, n - 1, x);
      assert qs[..n] == qs[..n - 1] + [qs[n - 1]];
      GatherSnoc(qs[..n - 1], qs[n - 1], answer);
    }
  }

  /** Gathering gives one record per answered question. */
  lemma GatherLength(qs: seq<Question>, answer: Question -> Option<RR>)
    ensures |Gather(qs, answer)| == |set i | 0 <= i < |qs| && answer(qs[i]).Some?|
  {
    GatherPrefixLength(qs, answer, |qs|);
    assert qs[..|qs|] == qs;
    assert Positions(qs, q => answer(q).Some?, |qs|) == set i | 0 <= i < |qs| && answer(qs[i]).Some?;
  }

  /** Gathering gives each record as often as questions are answered with it. */
  lemma GatherMultiplicity(qs: seq<Question>, answer: Question -> Option<RR>, x: RR)
    ensures multiset(Gather(qs, answer))[x] == |set i | 0 <= i < |qs| && answer(qs[i]) == Some(x)|
  {
    GatherPrefixMultiplicity(qs, answer, |qs|, x);
    assert qs[..|qs|] == qs;
    assert Positions(qs, q => answer(q) == Some(x), |qs|) == set i | 0 <= i < |qs| && answer(qs[i]) == Some(x);
  }

  /** The Answer section of the reply: each question's answer, in question order. */
  function HandleRequest(validSubnet: IPNet, qs: seq<Question>): (reply: seq<RR>)
    ensures |reply| <= |qs|
    ensures |reply| == |set i | 0 <= i < |qs| && Answer(validSubnet, qs[i]).Some?|
  {
    var answer := q => Answer(validSubnet, q);
    var reply := Gather(qs, answer);
    GatherLength(qs, answer);
    assert (set i | 0 <= i < |qs| && answer(qs[i]).Some?) == (set i | 0 <= i < |qs| && Answer(validSubnet, qs[i]).Some?);
    reply
  }

  /** The reply to one more question is the earlier reply followed by that question's answer:
      answers come in question order, at most one per question. */
  lemma ReplySnoc(validSubnet: IPNet, qs: seq<Question>, q: Question)
    ensures HandleRequest(validSubnet, qs + [q])
         == HandleRequest(validSubnet, qs) + (if Answer(validSubnet, q).Some? then [Answer(validSubnet, q).value] else [])
  {
    GatherSnoc(qs, q, q => Answer(validSubnet, q));
  }

  /** The reply holds exactly the answers of the individual questions, so every record in it
      answers one of the request's questions by name, type and class. */
  lemma ReplyIff(validSubnet: IPNet, qs: seq<Question>, x: RR)
    ensures x in HandleRequest(validSubnet, qs) <==> exists i :: 0 <= i < |qs| && Answer(validSubnet, qs[i]) == Some(x)
    ensures multiset(HandleRequest(validSubnet, qs))[x] == |set i | 0 <= i < |qs| && Answer(validSubnet, qs[i]) == Some(x)|
  {
    var answer := q => Answer(validSubnet, q);
    GatherIff(qs, answer, x);
    GatherMultiplicity(qs, answer, x);
    assert (set i | 0 <= i < |qs| && answer(qs[i]) == Some(x)) == (set i | 0 <= i < |qs| && Answer(validSubnet, qs[i]) == Some(x));
  }

  lemma ReplyAnswersQuestions(validSubnet: IPNet, qs: seq<Question>, x: RR)
    ensures x in HandleRequest(validSubnet, qs) ==> exists i :: 0 <= i < |qs| && Answers(x, qs[i])
  {
    ReplyIff(validSubnet, qs, x);
  }

  // ---------------------------------------------------------------------------------------------
  // Examples with the conversion test vector

  const ExampleLabels := ["_xmpp-client", "_tcp", PkgDomain.TestLabel, "mesh", "arpa"]
  const ExampleName := Join(ExampleLabels, '.') + "."

  lemma ExampleNameLabels()
    ensures SplitDomainName(ExampleName) == ExampleLabels
  {
    assert '.' !in PkgDomain.TestLabel;
    SplitDomainNameOfJoin(ExampleLabels, true);
  }

  lemma TestAddressNotMapped()
    ensures !IsV4Mapped(Widen(PkgDomain.TestAddress))
  {
    var w := Widen(PkgDomain.TestAddress);
    assert w[0] == 2;
    assert w[..10][0] == 2;
  }

  lemma ExampleLookup()
    ensures Lookup(CmdMeshnamed.DefaultSubnet(), PkgDomain.TestLabel) == Success(PkgDomain.TestAddress)
  {
    PkgDomain.TestIPFromDomain();
    var a := PkgDomain.TestAddress;
    assert IsLabelShape(Normalize(PkgDomain.TestLabel)) && Decode26Of(PkgDomain.TestLabel) == a;
    TestAddressNotMapped();
    AnySubnetContains(a);
  }

  lemma ExampleServerLabel(qtype: nat, qclass: nat)
    ensures |SplitDomainName(Question(ExampleName, qtype, qclass).name)| == 5
    ensures ServerLabel(Question(ExampleName, qtype, qclass)) == PkgDomain.TestLabel
    ensures ServiceKey(Question(ExampleName, qtype, qclass)) == "_xmpp-client._tcp"
  {
    ExampleNameLabels();
  }

  /** Under the default subnet, an AAAA question for `_xmpp-client._tcp.<label>.mesh.arpa.` is
      answered with the label's address. */
  lemma ExampleAAAA()
    ensures Answer(CmdMeshnamed.DefaultSubnet(), Question(ExampleName, TypeAAAA, ClassINET))
            == Some(RR(Header(ExampleName, TypeAAAA, ClassINET, MaxTtl), AAAAData(PkgDomain.TestAddress)))
  {
    ExampleServerLabel(TypeAAAA, ClassINET);
    ExampleLookup();
    AAAAIff(CmdMeshnamed.DefaultSubnet(), Question(ExampleName, TypeAAAA, ClassINET));
  }

  lemma XmppClientPort()
    ensures "_xmpp-client._tcp" in SrvPortMap && SrvPortMap["_xmpp-client._tcp"] == 5222
  {
  }

  /** The SRV question for the same name gets port 5222 on `<label>.mesh.arpa.`. */
  lemma ExampleSRV()
    ensures Answer(CmdMeshnamed.DefaultSubnet(), Question(ExampleName, TypeSRV, ClassINET))
            == Some(RR(Header(ExampleName, TypeSRV, ClassINET, MaxTtl), SRVData(0, 0, 5222, PkgDomain.TestLabel + "." + DomainZone)))
  {
    ExampleServerLabel(TypeSRV, ClassINET);
    ExampleLookup();
    XmppClientPort();
    SRVIff(CmdMeshnamed.DefaultSubnet(), Question(ExampleName, TypeSRV, ClassINET));
  }
}
