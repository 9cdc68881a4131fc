/** The library revision's server: a start/stop flag, a record table replaced wholesale, a map
    from top-level label to subnet, and the request handler that answers tabled labels locally
    and forwards the rest for permitted clients. */
module PkgServer {
  import opened Results
  import opened Text
  import opened Dns
  import opened IPNet
  import opened MapOrder
  import opened Dispatch
  import PkgDomain

  /** The state `handleRequest` and the lifecycle methods see; the logger, the DNS client and
      server objects and the locks are not modelled. */
  datatype Server = Server(
    listenAddr: string,
    networks: map<string, IPNet>,
    allowRemote: bool,
    records: map<string, seq<RR>>,
    started: bool)

  /** A new server is stopped and has an empty record table. */
  function New(listenAddr: string, networks: map<string, IPNet>, allowRemote: bool): (s: Server)
    ensures !IsStarted(s) && s.records == map[]
    ensures s.listenAddr == listenAddr && s.networks == networks && s.allowRemote == allowRemote
  {
    Server(listenAddr, networks, allowRemote, map[], false)
  }

  // ---------------------------------------------------------------------------------------------
  // Lifecycle

  function IsStarted(s: Server): bool
  {
    s.started
  }

  /** Starting a stopped server sets the flag and succeeds; starting a started one is an error
      and changes nothing. */
  function Start(s: Server): (r: (Server, Option<Error>))
    ensures IsStarted(r.0)
    ensures r.1 == None <==> !IsStarted(s)
    ensures r.1.Some? ==> r.1 == Some(AlreadyStarted) && r.0 == s
    ensures r.0.records == s.records && r.0.networks == s.networks && r.0.allowRemote == s.allowRemote
  {
    if !s.started then (s.(started := true), None)
    else (s, Some(AlreadyStarted))
  }

  /** Stopping clears the flag; stopping a stopped server does nothing. */
  function Stop(s: Server): (r: Server)
    ensures !IsStarted(r)
    ensures !IsStarted(s) ==> r == s
    ensures r.records == s.records && r.networks == s.networks && r.allowRemote == s.allowRemote
  {
    if s.started then s.(started := false) else s
  }

  /** The flag is a two-state machine: Start and Stop move between the states, a second Start
      fails, a second Stop is harmless, and a stopped server can be started again. */
  lemma Lifecycle(s: Server)
    ensures IsStarted(Start(s).0) && Start(Start(s).0).1 == Some(AlreadyStarted)
    ensures Stop(Stop(s)) == Stop(s)
    ensures Start(Stop(s)).1 == None
    ensures !IsStarted(s) ==> Stop(Start(s).0) == s
  {
  }

  /** The table is replaced, not merged; nothing else changes. */
  function ConfigureDNSRecords(s: Server, records: map<string, seq<RR>>): (r: Server)
    ensures r.records == records
    ensures r.(records := s.records) == s
  {
    s.(records := records)
  }

  // ---------------------------------------------------------------------------------------------
  // Requests

  /** Remote lookups are allowed for every client when so configured, otherwise for loopback
      clients only. */
  predicate IsRemoteLookupAllowed(s: Server, remoteAddr: string)
  {
    s.allowRemote || IsLoopbackClient(remoteAddr)
  }

  /** The loop body of `handleRequest` for one question, `allowed` being the client's remote-
      lookup permission. */
  function Classify(s: Server, allowed: bool, q: Question): Action
  {
    var labels := SplitDomainName(q.name);
    if |labels| < 2 then Skip
    else
      var sub := labels[|labels| - 2];
      if sub in s.records then Local(MatchingRecords(s.records[sub], q))
      else if !allowed then Skip
      else
        match PkgDomain.IPFromDomain(sub)
        case Failure(_) => Skip
        case Success(ip) =>
          var tld := labels[|labels| - 1];
          if tld in s.networks && Contains(s.networks[tld], ip) then Forward(ip) else Skip
  }

  /** The state after the question loop: local answers and forwarding batches. The table and
      the client's permission are read once for the whole request. */
  function PlanRequest(s: Server, remoteAddr: string, qs: seq<Question>): Plan
  {
    var allowed := IsRemoteLookupAllowed(s, remoteAddr);
    PlanOf(qs, q => Classify(s, allowed, q))
  }

  /** The Answer section of the reply `handleRequest` always writes: the local answers, then the
      answers of each successful exchange, in map iteration order `order`. */
  function HandleRequest(s: Server, remoteAddr: string, qs: seq<Question>, order: seq<Address>, exchange: Exchange): (reply: seq<RR>)
    requires IsOrderOf(order, PlanRequest(s, remoteAddr, qs).batches.Keys)
    ensures var local := PlanRequest(s, remoteAddr, qs).local;
            |local| <= |reply| && reply[..|local|] == local
  {
    Respond(PlanRequest(s, remoteAddr, qs), order, exchange)
  }

  // ---------------------------------------------------------------------------------------------
  // Properties

  /** When a question of the request is forwarded, and to which server. */
  predicate ForwardCondition(s: Server, remoteAddr: string, q: Question, a: Address)
  {
    var labels := SplitDomainName(q.name);
    && |labels| >= 2
    && labels[|labels| - 2] !in s.records
    && IsRemoteLookupAllowed(s, remoteAddr)
    && PkgDomain.IPFromDomain(labels[|labels| - 2]) == Success(a)
    && labels[|labels| - 1] in s.networks
    && Contains(s.networks[labels[|labels| - 1]], a)
  }

  lemma ClassifyForward(s: Server, remoteAddr: string, q: Question, a: Address)
    ensures Classify(s, IsRemoteLookupAllowed(s, remoteAddr), q) == Forward(a) <==> ForwardCondition(s, remoteAddr, q, a)
  {
  }

  /** A question is queued for server `a` exactly when it is one of the request's questions, its
      label is not tabled, the client may look up remotely, the label decodes to `a`, and the
      subnet of its top-level label contains `a`. */
  lemma ForwardedIff(s: Server, remoteAddr: string, qs: seq<Question>, q: Question, a: Address)
    ensures (a in PlanRequest(s, remoteAddr, qs).batches && q in PlanRequest(s, remoteAddr, qs).batches[a])
        <==> q in qs && ForwardCondition(s, remoteAddr, q, a)
  {
    var allowed := IsRemoteLookupAllowed(s, remoteAddr);
    PlanForwardIff(qs, q => Classify(s, allowed, q), q, a);
    ClassifyForward(s, remoteAddr, q, a);
  }

  /** A question whose label is tabled is never forwarded, whether or not a record matches. */
  lemma TabledNeverForwarded(s: Server, remoteAddr: string, qs: seq<Question>, q: Question)
    requires Tabled(s, q)
    ensures forall a :: a in PlanRequest(s, remoteAddr, qs).batches ==> q !in PlanRequest(s, remoteAddr, qs).batches[a]
  {
    forall a | a in PlanRequest(s, remoteAddr, qs).batches
      ensures q !in PlanRequest(s, remoteAddr, qs).batches[a]
    {
      ForwardedIff(s, remoteAddr, qs, q, a);
    }
  }

  /** A name with fewer than two labels contributes neither an answer nor a forward. */
  lemma ShortNameIgnored(s: Server, allowed: bool, q: Question)
    requires |SplitDomainName(q.name)| < 2
    ensures Classify(s, allowed, q) == Skip
  {
  }

  lemma ClassifyLocal(s: Server, allowed: bool, q: Question, x: RR)
    ensures (Classify(s, allowed, q).Local? && x in Classify(s, allowed, q).answers)
        <==> Tabled(s, q) && x in s.records[TabledLabel(q)] && Answers(x, q)
  {
  }

  /** Local answers are exactly the stored records, under tabled labels, that answer a question
      of the request by owner name, type and class. */
  lemma LocalIff(s: Server, remoteAddr: string, qs: seq<Question>, x: RR)
    ensures x in PlanRequest(s, remoteAddr, qs).local <==>
            exists i :: 0 <= i < |qs| && Tabled(s, qs[i]) && x in s.records[TabledLabel(qs[i])] && Answers(x, qs[i])
  {
    var allowed := IsRemoteLookupAllowed(s, remoteAddr);
    PlanLocalIff(qs, q => Classify(s, allowed, q), x);
    forall i | 0 <= i < |qs|
      ensures (Classify(s, allowed, qs[i]).Local? && x in Classify(s, allowed, qs[i]).answers)
          <==> Tabled(s, qs[i]) && x in s.records[TabledLabel(qs[i])] && Answers(x, qs[i])
    {
      ClassifyLocal(s, allowed, qs[i], x);
    }
  }

  predicate Tabled(s: Server, q: Question)
  {
    var labels := SplitDomainName(q.name);
    |labels| >= 2 && labels[|labels| - 2] in s.records
  }

  function TabledLabel(q: Question): string
    requires |SplitDomainName(q.name)| >= 2
  {
    var labels := SplitDomainName(q.name);
    labels[|labels| - 2]
  }

  /** After a table swap only the new table answers: a label missing from it is never answered
      locally, even if the old table had it, and a label in it is answered from it alone. */
  lemma ConfigureReplaces(s: Server, records: map<string, seq<RR>>, allowed: bool, q: Question)
    requires |SplitDomainName(q.name)| >= 2
    ensures TabledLabel(q) !in records ==> !Classify(ConfigureDNSRecords(s, records), allowed, q).Local?
    ensures TabledLabel(q) in records ==> Classify(ConfigureDNSRecords(s, records), allowed, q) == Local(MatchingRecords(records[TabledLabel(q)], q))
  {
  }

  /** Without the allow-remote setting, the client's address string decides: the port separator
      makes the check exact, so 127.0.0.10 is not a loopback client. */
  lemma RemoteLookupExamples(s: Server)
    requires !s.allowRemote
    ensures IsRemoteLookupAllowed(s, "127.0.0.1:5353")
    ensures IsRemoteLookupAllowed(s, "[::1]:40000")
    ensures !IsRemoteLookupAllowed(s, "127.0.0.10:53")
    ensures !IsRemoteLookupAllowed(s, "[fd00::1]:53")
  {
    assert "127.0.0.1:5353"[..10] == "127.0.0.1:";
    assert "[::1]:40000"[..6] == "[::1]:";
    assert "127.0.0.10:53"[..10] != "127.0.0.1:" by { assert "127.0.0.10:53"[9] == '0'; }
    assert "127.0.0.10:53"[..6] != "[::1]:" by { assert "127.0.0.10:53"[0] == '1'; }
    assert "[fd00::1]:53"[..6] != "[::1]:" by { assert "[fd00::1]:53"[1] == 'f'; }
    assert "[fd00::1]:53"[..10] != "127.0.0.1:" by { assert "[fd00::1]:53"[0] == '['; }
  }

  // ---------------------------------------------------------------------------------------------
  // The local-domain example of server_test.go

  const TestKey := "aiarnf2wpqjxkp6rhivuxbondy"
  const TestName := "test." + TestKey + ".meshname."

  /** 200::/7 under "meshname", and one record stored under the example label. */
  function TestServer(rec: RR): Server
  {
    var base: Address := [0x02] + seq(15, _ => 0 as bv8);
    ConfigureDNSRecords(New("[::1]:54545", map["meshname" := CIDR6(base, 7)], false), map[TestKey := [rec]])
  }

  lemma TestNameJoin()
    ensures TestName == Join(["test", TestKey, "meshname"], '.') + "."
  {
    JoinThree("test", TestKey, "meshname", '.');
    assert "test." == "test" + ['.'];
    assert ".meshname." == ['.'] + "meshname" + ".";
  }

  lemma TestNameLabels()
    ensures SplitDomainName(TestName) == ["test", TestKey, "meshname"]
  {
    TestNameJoin();
    assert '.' !in TestKey;
    SplitDomainNameOfJoin(["test", TestKey, "meshname"], true);
  }

  /** The example question is answered from the table. */
  lemma TestClassify(rec: RR, allowed: bool)
    requires rec.header.name == TestName && rec.header.rrtype == TypeAAAA && rec.header.rrclass == ClassINET
    ensures Classify(TestServer(rec), allowed, Question(TestName, TypeAAAA, ClassINET)) == Local([rec])
  {
    TestNameLabels();
    assert MatchingRecords([rec], Question(TestName, TypeAAAA, ClassINET)) == [rec];
  }

  /** An AAAA question for the stored record's owner is answered with exactly that record, from
      any client and whatever the exchange would do. */
  lemma TestLocalDomain(rec: RR, remoteAddr: string, exchange: Exchange)
    requires rec.header.name == TestName && rec.header.rrtype == TypeAAAA && rec.header.rrclass == ClassINET
    ensures var qs := [Question(TestName, TypeAAAA, ClassINET)];
            PlanRequest(TestServer(rec), remoteAddr, qs).batches == map[] &&
            HandleRequest(TestServer(rec), remoteAddr, qs, [], exchange) == [rec]
  {
    var s := TestServer(rec);
    var qs := [Question(TestName, TypeAAAA, ClassINET)];
    var allowed := IsRemoteLookupAllowed(s, remoteAddr);
    TestClassify(rec, allowed);
    var actions := ActionsOf(qs, q => Classify(s, allowed, q));
    assert actions == [Local([rec])];
    assert LocalAnswers(actions) == [rec];
    assert forall a :: !ForwardsTo(actions, a);
  }
}
