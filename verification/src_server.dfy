/** The older daemon revision under src/: its own copy of the label conversions, a `GenConf` that
    prints the `Domain`/`Records` form, and a request handler that decodes the label and checks
    the single valid subnet before it looks at the record table. */
module SrcServer {
  import opened Results
  import opened Text
  import opened Base32
  import opened LabelCodec
  import opened Dns
  import opened IPNet
  import opened MapOrder
  import opened Dispatch
  import opened ZoneConfig
  import PkgDomain

  /** The zone the daemon serves. */
  const DomainZone := "meshname."

  /** The label naming the server at `target`: 26 lower-case base32 characters. */
  function DomainFromIP(target: Address): (s: string)
    ensures |s| == LabelLength
    ensures forall i :: 0 <= i < |s| ==> IsSymbol(ToUpper(s)[i]) && !IsUpperAscii(s[i])
  {
    PkgDomain.DomainFromIP(target)
  }

  /** The server address a label names. A decoder error is passed on and a payload that is not
      16 bytes is an invalid subdomain; the nil check reports an invalid IP address but cannot
      fire. */
  function IPFromDomain(domain: string): (r: Result<Address>)
    ensures r.Success? <==> IsLabelShape(Normalize(domain))
    ensures r.Success? ==> r.value == Decode26(Normalize(domain)[..LabelLength])
    ensures r.Failure? ==> r.error in {CorruptInput, InvalidSubdomain}
  {
    PayloadSixteen(domain);
    match Payload(domain)
    case None => Failure(CorruptInput)
    case Some(data) =>
      if |data| != 16 then Failure(InvalidSubdomain)
      else if |data| == 0 then Failure(InvalidIPAddress)
      else var ip: Address := data; Success(ip)
  }

  /** This copy of the conversions agrees with the library's on every label. */
  lemma SameAsLibrary(domain: string)
    ensures IPFromDomain(domain) == PkgDomain.IPFromDomain(domain)
  {
  }

  /** Round trip: the label of an address names that address. */
  lemma IPFromDomainOfDomainFromIP(ip: Address)
    ensures IPFromDomain(DomainFromIP(ip)) == Success(ip)
  {
    PkgDomain.IPFromDomainOfDomainFromIP(ip);
    SameAsLibrary(DomainFromIP(ip));
  }

  /** The conversion example of the revision's tests, in both directions. */
  lemma TestConversions()
    ensures IPFromDomain(PkgDomain.TestLabel) == Success(PkgDomain.TestAddress)
    ensures DomainFromIP(PkgDomain.TestAddress) == PkgDomain.TestLabel
  {
    PkgDomain.TestIPFromDomain();
    PkgDomain.TestDomainFromIP();
    SameAsLibrary(PkgDomain.TestLabel);
  }

  /** The configuration object for the server at `target`: `Domain` is its label and the one
      record line is its AAAA record in the daemon's zone. Fails when `target` is not an IP
      address. */
  function GenConf(parseIP: ParseIP, target: string): (r: Result<string>)
    ensures r.Failure? <==> parseIP(target).None?
    ensures r.Failure? ==> r.error == InvalidIPAddress
  {
    match parseIP(target)
    case None => Failure(InvalidIPAddress)
    case Some(ip) => Success(DomainConf(DomainFromIP(ip), DomainZone, target))
  }

  /** The `Domain` value of the generated object names the server, and its record line is
      `<label>.meshname. AAAA <target>`. */
  lemma GenConfNamesTarget(parseIP: ParseIP, target: string)
    requires parseIP(target).Some?
    ensures var text := GenConf(parseIP, target).value;
            var key := text[|DomainOpen|..|DomainOpen| + LabelLength];
            && key == DomainFromIP(parseIP(target).value)
            && |text| == |DomainOpen| + LabelLength + |DomainMiddle| + |SelfRecord(key, DomainZone, target)| + |ConfClose|
            && IPFromDomain(key) == Success(parseIP(target).value)
            && text[|DomainOpen| + LabelLength + |DomainMiddle|..|text| - |ConfClose|] == SelfRecord(key, DomainZone, target)
  {
    var ip := parseIP(target).value;
    var sub := DomainFromIP(ip);
    var text := DomainConf(sub, DomainZone, target);
    assert GenConf(parseIP, target).value == text;
    assert text[|DomainOpen|..|DomainOpen| + LabelLength] == sub;
    IPFromDomainOfDomainFromIP(ip);
  }

  /** Reading the generated object back gives the server's label as `Domain` and its AAAA
      record line, provided the target text holds no double quote. */
  lemma GenConfReads(parseIP: ParseIP, target: string)
    requires parseIP(target).Some? && '"' !in target
    ensures var sub := DomainFromIP(parseIP(target).value);
            ReadConf(DomainOpen, DomainMiddle, GenConf(parseIP, target).value) == Some((sub, SelfRecord(sub, DomainZone, target)))
  {
    var sub := DomainFromIP(parseIP(target).value);
    PkgDomain.DomainFromIPQuoteFree(parseIP(target).value);
    assert '"' !in DomainZone;
    SelfRecordQuoteFree(sub, DomainZone, target);
    DomainConfRead(sub, DomainZone, target);
  }

  // ---------------------------------------------------------------------------------------------
  // Requests

  /** The state `handleRequest` reads. The table is whatever the configuration loader filled in;
      the logger, the DNS client and the configuration path are not modelled. */
  datatype Server = Server(listenAddr: string, validSubnet: IPNet, zoneConfig: map<string, seq<RR>>)

  /** The loop body of `handleRequest` for one question from the client at `remoteAddr`. */
  function Classify(s: Server, remoteAddr: string, q: Question): Action
  {
    var labels := SplitDomainName(q.name);
    if |labels| < 2 then Skip
    else
      var sub := labels[|labels| - 2];
      match IPFromDomain(sub)
      case Failure(_) => Skip
      case Success(ip) =>
        if !Contains(s.validSubnet, ip) then Skip
        else if sub in s.zoneConfig then Local(MatchingRecords(s.zoneConfig[sub], q))
        else if IsLoopbackClient(remoteAddr) then Forward(ip)
        else Skip
  }

  /** The state after the question loop: local answers and forwarding batches. */
  function PlanRequest(s: Server, remoteAddr: string, qs: seq<Question>): Plan
  {
    PlanOf(qs, q => Classify(s, remoteAddr, q))
  }

  /** The Answer section of the reply `handleRequest` always writes: the local answers, then the
      answers of each successful exchange, in map iteration order `order`. */
  function HandleRequest(s: Server, remoteAddr: string, qs: seq<Question>, order: seq<Address>, exchange: Exchange): (reply: seq<RR>)
    requires IsOrderOf(order, PlanRequest(s, remoteAddr, qs).batches.Keys)
    ensures var local := PlanRequest(s, remoteAddr, qs).local;
            |local| <= |reply| && reply[..|local|] == local
  {
    Respond(PlanRequest(s, remoteAddr, qs), order, exchange)
  }

  // ---------------------------------------------------------------------------------------------
  // Properties

  /** The label of `q` decodes to an address inside the valid subnet. */
  predicate Resolves(s: Server, q: Question)
  {
    var labels := SplitDomainName(q.name);
    && |labels| >= 2
    && IPFromDomain(labels[|labels| - 2]).Success?
    && Contains(s.validSubnet, IPFromDomain(labels[|labels| - 2]).value)
  }

  function SubLabel(q: Question): string
    requires |SplitDomainName(q.name)| >= 2
  {
    var labels := SplitDomainName(q.name);
    labels[|labels| - 2]
  }

  /** A question that does not resolve inside the subnet is skipped, even when its label is in
      the table. */
  lemma UnresolvedIgnored(s: Server, remoteAddr: string, q: Question)
    requires !Resolves(s, q)
    ensures Classify(s, remoteAddr, q) == Skip
  {
  }

  lemma ClassifyForward(s: Server, remoteAddr: string, q: Question, a: Address)
    ensures Classify(s, remoteAddr, q) == Forward(a)
        <==> Resolves(s, q) && SubLabel(q) !in s.zoneConfig && IsLoopbackClient(remoteAddr)
             && IPFromDomain(SubLabel(q)) == Success(a)
  {
  }

  /** A question is queued for server `a` exactly when it is one of the request's questions, its
      label decodes to `a` inside the valid subnet, the label is not tabled, and the client is on
      a loopback address. */
  lemma ForwardedIff(s: Server, remoteAddr: string, qs: seq<Question>, q: Question, a: Address)
    ensures (a in PlanRequest(s, remoteAddr, qs).batches && q in PlanRequest(s, remoteAddr, qs).batches[a])
        <==> q in qs && Resolves(s, q) && SubLabel(q) !in s.zoneConfig && IsLoopbackClient(remoteAddr)
              && IPFromDomain(SubLabel(q)) == Success(a)
  {
    PlanForwardIff(qs, q => Classify(s, remoteAddr, q), q, a);
    ClassifyForward(s, remoteAddr, q, a);
  }

  /** Only loopback clients cause forwarding. */
  lemma RemoteClientNeverForwards(s: Server, remoteAddr: string, qs: seq<Question>)
    requires !IsLoopbackClient(remoteAddr)
    ensures PlanRequest(s, remoteAddr, qs).batches == map[]
  {
    forall a | a in PlanRequest(s, remoteAddr, qs).batches
      ensures false
    {
      var plan := PlanRequest(s, remoteAddr, qs);
      var actions := ActionsOf(qs, q => Classify(s, remoteAddr, q));
      assert ForwardsTo(actions, a);
      var i :| 0 <= i < |actions| && actions[i] == Forward(a);
      ClassifyForward(s, remoteAddr, qs[i], a);
    }
  }

  lemma ClassifyLocal(s: Server, remoteAddr: string, q: Question, x: RR)
    ensures (Classify(s, remoteAddr, q).Local? && x in Classify(s, remoteAddr, q).answers)
        <==> Resolves(s, q) && SubLabel(q) in s.zoneConfig && x in s.zoneConfig[SubLabel(q)] && Answers(x, q)
  {
  }

  /** Local answers are exactly the stored records, under labels that resolve inside the subnet,
      that answer a question of the request by owner name, type and class. */
  lemma LocalIff(s: Server, remoteAddr: string, qs: seq<Question>, x: RR)
    ensures x in PlanRequest(s, remoteAddr, qs).local <==>
            exists i :: 0 <= i < |qs| && Resolves(s, qs[i]) && SubLabel(qs[i]) in s.zoneConfig
                        && x in s.zoneConfig[SubLabel(qs[i])] && Answers(x, qs[i])
  {
    PlanLocalIff(qs, q => Classify(s, remoteAddr, q), x);
    forall i | 0 <= i < |qs|
      ensures (Classify(s, remoteAddr, qs[i]).Local? && x in Classify(s, remoteAddr, qs[i]).answers)
          <==> Resolves(s, qs[i]) && SubLabel(qs[i]) in s.zoneConfig && x in s.zoneConfig[SubLabel(qs[i])] && Answers(x, qs[i])
    {
      ClassifyLocal(s, remoteAddr, qs[i], x);
    }
  }
}
