/** The stand-alone daemon under cmd/meshnamed: `lookup` decodes a label and checks it against
    the valid subnet (`::/0` unless the environment names another), `genConf` prints the
    `Domain`/`Records` form, and `handleRequest` runs `lookup` before either path. */
module CmdMeshnamed {
  import opened Results
  import opened Text
  import opened Base32
  import opened LabelCodec
  import opened Dns
  import opened IPNet
  import opened MapOrder
  import opened Dispatch
  import opened ZoneConfig
  import SrcServer

  const DomainZone := "meshname."

  /** The subnet used when none is configured: `::/0`. */
  function DefaultSubnet(): IPNet
  {
    AnySubnet()
  }

  /** The server address a label names, provided `validSubnet` contains it. */
  function Lookup(validSubnet: IPNet, domain: string): (r: Result<Address>)
    ensures r.Success? <==> IsLabelShape(Normalize(domain)) && Contains(validSubnet, Decode26(Normalize(domain)[..LabelLength]))
    ensures r.Success? ==> r.value == Decode26(Normalize(domain)[..LabelLength])
    ensures r == Failure(InvalidSubnet) <==> IsLabelShape(Normalize(domain)) && !Contains(validSubnet, Decode26(Normalize(domain)[..LabelLength]))
  {
    match SrcServer.IPFromDomain(domain)
    case Failure(e) => Failure(e)
    case Success(ip) => if !Contains(validSubnet, ip) then Failure(InvalidSubnet) else Success(ip)
  }

  /** Under the default subnet a well-formed label is refused only when it decodes to an
      IPv4-mapped address, which `net.IPNet.Contains` keeps out of an IPv6 network. */
  lemma LookupDefaultSubnet(domain: string)
    requires IsLabelShape(Normalize(domain))
    ensures Lookup(DefaultSubnet(), domain).Success? <==> !IsV4Mapped(Widen(Decode26(Normalize(domain)[..LabelLength])))
  {
    AnySubnetContains(Decode26(Normalize(domain)[..LabelLength]));
  }

  /** The configuration object for the server at `target`, in the `Domain`/`Records` form.
      Fails when `target` is not an IP address. */
  function GenConf(parseIP: ParseIP, target: string): (r: Result<string>)
    ensures r.Failure? <==> parseIP(target).None?
    ensures r.Failure? ==> r.error == InvalidIPAddress
  {
    match parseIP(target)
    case None => Failure(InvalidIPAddress)
    case Some(ip) => Success(DomainConf(EncodeLabel(ip), DomainZone, target))
  }

  /** The text is the src/ revision's, so `Domain` names the server and the record line is
      `<label>.meshname. AAAA <target>` (`SrcServer.GenConfNamesTarget`). */
  lemma GenConfSameAsSrc(parseIP: ParseIP, target: string)
    ensures GenConf(parseIP, target) == SrcServer.GenConf(parseIP, target)
  {
  }

  // ---------------------------------------------------------------------------------------------
  // Requests

  /** The daemon's globals that `handleRequest` reads. */
  datatype Daemon = Daemon(validSubnet: IPNet, zoneConfig: map<string, seq<RR>>)

  /** The loop body of `handleRequest` for one question from the client at `remoteAddr`. */
  function Classify(d: Daemon, remoteAddr: string, q: Question): Action
  {
    var labels := SplitDomainName(q.name);
    if |labels| < 2 then Skip
    else
      var sub := labels[|labels| - 2];
      match Lookup(d.validSubnet, sub)
      case Failure(_) => Skip
      case Success(ip) =>
        if sub in d.zoneConfig then Local(MatchingRecords(d.zoneConfig[sub], q))
        else if IsLoopbackClient(remoteAddr) then Forward(ip)
        else Skip
  }

  function PlanRequest(d: Daemon, remoteAddr: string, qs: seq<Question>): Plan
  {
    PlanOf(qs, q => Classify(d, remoteAddr, q))
  }

  /** The Answer section of the reply: local answers, then each successful exchange's answers,
      in map iteration order `order`. */
  function HandleRequest(d: Daemon, remoteAddr: string, qs: seq<Question>, order: seq<Address>, exchange: Exchange): (reply: seq<RR>)
    requires IsOrderOf(order, PlanRequest(d, remoteAddr, qs).batches.Keys)
    ensures var local := PlanRequest(d, remoteAddr, qs).local;
            |local| <= |reply| && reply[..|local|] == local
  {
    Respond(PlanRequest(d, remoteAddr, qs), order, exchange)
  }

  /** The src/ server with the same subnet and table. */
  function AsSrcServer(d: Daemon): SrcServer.Server
  {
    SrcServer.Server("", d.validSubnet, d.zoneConfig)
  }

  lemma ClassifySameAsSrc(d: Daemon, remoteAddr: string, q: Question)
    ensures Classify(d, remoteAddr, q) == SrcServer.Classify(AsSrcServer(d), remoteAddr, q)
  {
  }

  /** Folding `lookup` into one call changes nothing: every request is planned exactly as the
      src/ server plans it, so its forwarding and local-answer characterisations carry over. */
  lemma PlanSameAsSrc(d: Daemon, remoteAddr: string, qs: seq<Question>)
    ensures PlanRequest(d, remoteAddr, qs) == SrcServer.PlanRequest(AsSrcServer(d), remoteAddr, qs)
  {
    var c1 := q => Classify(d, remoteAddr, q);
    var c2 := q => SrcServer.Classify(AsSrcServer(d), remoteAddr, q);
    forall q ensures c1(q) == c2(q) {
      ClassifySameAsSrc(d, remoteAddr, q);
    }
    assert ActionsOf(qs, c1) == ActionsOf(qs, c2);
  }

  /** A question is forwarded to `a` exactly when its label looks up to `a`, is not tabled, and
      the client is on a loopback address. */
  lemma ForwardedIff(d: Daemon, remoteAddr: string, qs: seq<Question>, q: Question, a: Address)
    ensures (a in PlanRequest(d, remoteAddr, qs).batches && q in PlanRequest(d, remoteAddr, qs).batches[a])
        <==> q in qs && |SplitDomainName(q.name)| >= 2 && Lookup(d.validSubnet, SrcServer.SubLabel(q)) == Success(a)
             && SrcServer.SubLabel(q) !in d.zoneConfig && IsLoopbackClient(remoteAddr)
  {
    PlanSameAsSrc(d, remoteAddr, qs);
    SrcServer.ForwardedIff(AsSrcServer(d), remoteAddr, qs, q, a);
  }
}
