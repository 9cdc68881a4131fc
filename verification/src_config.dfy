/** The configuration helpers that sit beside the src/ daemon: `GenConf` printing the one-key
    form with a caller-chosen zone, and `ParseZoneConfigMap`. Both agree with the library's. */
module SrcConfig {
  import opened Results
  import opened Dns
  import opened IPNet
  import opened MapOrder
  import opened ZoneConfig
  import SrcServer
  import PkgConfig

  /** The configuration object for the server at `target` in `zone`, built from the src/ label
      conversion. Fails when `target` is not an IP address. */
  function GenConf(parseIP: ParseIP, target: string, zone: string): (r: Result<string>)
    ensures r.Failure? <==> parseIP(target).None?
    ensures r.Failure? ==> r.error == InvalidIPAddress
  {
    match parseIP(target)
    case None => Failure(InvalidIPAddress)
    case Some(ip) => Success(MapConf(SrcServer.DomainFromIP(ip), zone, target))
  }

  /** The text is the library's, so its key names the server and its record line is
      `<key>.<zone> AAAA <target>` (`PkgConfig.GenConfNamesTarget`). */
  lemma GenConfSameAsLibrary(parseIP: ParseIP, target: string, zone: string)
    ensures GenConf(parseIP, target, zone) == PkgConfig.GenConf(parseIP, target, zone)
  {
  }

  /** `ParseZoneConfigMap` with map iteration order `order`: all or nothing, empty lists
      dropped, each list parsed element by element. */
  method ParseZoneConfigMap(zoneConfigMap: map<string, seq<string>>, order: seq<string>, newRR: NewRR)
    returns (r: Result<map<string, seq<RR>>>)
    requires IsOrderOf(order, zoneConfigMap.Keys)
    ensures r.Success? <==> forall k :: k in zoneConfigMap ==> ParseRecords(zoneConfigMap[k], newRR).Some?
    ensures r.Failure? ==> r.error.BadRecord? && newRR(r.error.text).None?
                           && exists k :: k in zoneConfigMap && r.error.text in zoneConfigMap[k]
    ensures r.Success? ==> forall k :: k in r.value <==> k in zoneConfigMap && |zoneConfigMap[k]| > 0
    ensures r.Success? ==> forall k :: k in r.value ==> ParseRecords(zoneConfigMap[k], newRR) == Some(r.value[k])
    ensures zoneConfigMap == map[] ==> r == Success(map[])
  {
    r := ParseRecordsMap(zoneConfigMap, order, newRR);
  }
}
