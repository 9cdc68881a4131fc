/** The library revision's configuration helpers: the text `GenConf` prints for a server and
    `ParseDNSRecordsMap`, which builds the record table from the decoded configuration object. */
module PkgConfig {
  import opened Results
  import opened Text
  import opened Dns
  import opened IPNet
  import opened MapOrder
  import opened ZoneConfig
  import opened LabelCodec
  import PkgDomain

  /** The configuration object for the server at `target`: its label as the only key, holding the
      server's own AAAA record in `zone`. Fails when `target` is not an IP address. */
  function GenConf(parseIP: ParseIP, target: string, zone: string): (r: Result<string>)
    ensures r.Failure? <==> parseIP(target).None?
    ensures r.Failure? ==> r.error == InvalidIPAddress
  {
    match parseIP(target)
    case None => Failure(InvalidIPAddress)
    case Some(ip) => Success(MapConf(PkgDomain.DomainFromIP(ip), zone, target))
  }

  /** The key of the generated object names the server, and its record line is
      `<key>.<zone> AAAA <target>`. */
  lemma GenConfNamesTarget(parseIP: ParseIP, target: string, zone: string)
    requires parseIP(target).Some?
    ensures var text := GenConf(parseIP, target, zone).value;
            var key := text[|MapOpen|..|MapOpen| + LabelLength];
            && key == PkgDomain.DomainFromIP(parseIP(target).value)
            && |text| == |MapOpen| + LabelLength + |MapMiddle| + |SelfRecord(key, zone, target)| + |ConfClose|
            && PkgDomain.IPFromDomain(key) == Success(parseIP(target).value)
            && text[|MapOpen| + LabelLength + |MapMiddle|..|text| - |ConfClose|] == SelfRecord(key, zone, target)
  {
    var ip := parseIP(target).value;
    var sub := PkgDomain.DomainFromIP(ip);
    assert GenConf(parseIP, target, zone).value == MapConf(sub, zone, target);
    assert |sub| == LabelLength;
    PkgDomain.IPFromDomainOfDomainFromIP(ip);
  }

  /** Reading the generated object back gives the server's label as the key and its AAAA record
      line, provided the zone and the target text hold no double quote (`GenConf` does not
      escape them). */
  lemma GenConfReads(parseIP: ParseIP, target: string, zone: string)
    requires parseIP(target).Some? && '"' !in zone && '"' !in target
    ensures var sub := PkgDomain.DomainFromIP(parseIP(target).value);
            ReadConf(MapOpen, MapMiddle, GenConf(parseIP, target, zone).value) == Some((sub, SelfRecord(sub, zone, target)))
  {
    var sub := PkgDomain.DomainFromIP(parseIP(target).value);
    PkgDomain.DomainFromIPQuoteFree(parseIP(target).value);
    SelfRecordQuoteFree(sub, zone, target);
    MapConfRead(sub, zone, target);
  }

  /** `ParseDNSRecordsMap` with map iteration order `order`. */
  method ParseDNSRecordsMap(records: map<string, seq<string>>, order: seq<string>, newRR: NewRR)
    returns (r: Result<map<string, seq<RR>>>)
    requires IsOrderOf(order, records.Keys)
    ensures r.Success? <==> forall k :: k in records ==> ParseRecords(records[k], newRR).Some?
    ensures r.Failure? ==> r.error.BadRecord? && newRR(r.error.text).None?
                           && exists k :: k in records && r.error.text in records[k]
    ensures r.Success? ==> forall k :: k in r.value <==> k in records && |records[k]| > 0
    ensures r.Success? ==> forall k :: k in r.value ==> ParseRecords(records[k], newRR) == Some(r.value[k])
    ensures records == map[] ==> r == Success(map[])
  {
    r := ParseRecordsMap(records, order, newRR);
  }
}
