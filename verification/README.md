# meshname in Dafny

meshname is a DNS server for mesh networks. It names each server by one label of 26 lower-case
base32 characters that spell the server's own 16-byte IPv6 address, for example
`aib7cwwdeob2vtnqf2cfnm7ilq` for `203:f15a:c323:83aa:cdb0:2e84:56b3:e85c`. A query for such a name is
answered in one of two ways:

- from a local record table, when the label is in it;
- otherwise by forwarding the question to the address the label spells, for permitted clients
  and only when that address lies in a trusted subnet.

The repository holds several revisions of this logic. This project models each of them as its own
module, on a shared model of the label codec, Go's base32 decoder, `net.IPNet.Contains`, and
request dispatch:

| module | revision |
|---|---|
| `PkgDomain`, `PkgServer`, `PkgConfig` | the library package `pkg/meshname`: label conversions, a server with a start/stop flag, a record table swapped as a whole, and one subnet per top-level label |
| `SrcServer`, `SrcConfig` | the older package `src/meshname`: one valid subnet, checked before the record table is consulted |
| `CmdMeshnamed` | the stand-alone daemon `cmd/meshnamed` |
| `Meshnamed` | the `mesh.arpa.` daemon `meshnamed.go`, which synthesises AAAA and SRV answers and never forwards |
| `CmdMeshname` | the command-line tool `cmd/meshname` (`lookup` and `reverse_lookup`) |

Shared modules:

- `Results`: results and error kinds.
- `Text`: case mapping, newline stripping, `strings.Split`, joining.
- `Base32`: `encoding/base32` `StdEncoding`, encoder and decoder.
- `LabelCodec`: labels and addresses.
- `Bitwise`, `IPNet`: masks, `IP.To4`, `IPNet.Contains`.
- `Dns`: questions, records, `dns.SplitDomainName`, record matching.
- `MapOrder`: iteration orders of Go maps.
- `Dispatch`: the per-question classification into a local answer, a forward or a skip; the
  batching of forwards by server; the merged reply.
- `ZoneConfig`: the text `GenConf` prints, and parsing of record lists.

Go's map iteration order is not fixed, so every loop over a map takes an explicit `order`
parameter, which must be a duplicate-free listing of the keys (`MapOrder.IsOrderOf`). The
following are all parameters, so that no foreign code is called:

- the DNS exchange with a remote server (`Exchange`);
- `net.ParseIP` (`ParseIP`);
- `dns.NewRR` (`NewRR`).

A few behaviours of the code are easy to miss. The model follows the code in each case:

- **Labels longer than 26 characters.** The label decoder is Go's base32 decoder after
  `ToUpper(label) + "======"`, and nothing checks that the label has 26 characters. A label
  therefore decodes to 16 bytes exactly when, once CR and LF are dropped, it is 26 alphabet
  characters followed by at most two `=` (`LabelCodec.PayloadSixteen`). Labels of 27 or 28
  characters that end in `=` are accepted by the daemons. A label with embedded line breaks is
  accepted by a direct caller of `IPFromDomain` and by the command-line `lookup`. It does not reach
  the daemons as such, because the DNS library escapes bytes below 0x20 in a received query name
  as `\DDD`.
- **Stopping a stopped server.** `Stop` on a stopped library server is a silent no-op, not an
  error.
- **Forwarded queries.** They are built with `new(dns.Msg)`, so no recursion-desired bit is set.
  Only their questions are modelled.
- **IPv4-mapped addresses.** `::/0` does not contain them, because `IPNet.Contains` compares those
  in their 4-byte form (`IPNet.AnySubnetContains`).

## Model

| member | source | states |
|---|---|---|
| Text.StripNewlines | pkg/meshname/domain.go:18 | The result keeps exactly the characters of the input that are not CR or LF, and is no longer than the input. |
| Text.Split | cmd/meshname/main.go:24 | Cutting at every separator gives one piece more than there are separators, and no piece contains a separator. |
| Text.UpperOfLower | pkg/meshname/domain.go:12-17 | Upper-casing after lower-casing is plain upper-casing, and upper-casing is idempotent. |
| Base32.SymbolValueOfSymbol | pkg/meshname/domain.go:12-18 | The encoder's alphabet and the decoder's table are inverse on the 32 symbol values. |
| Base32.EncodeBlock | pkg/meshname/domain.go:12 | A block of 1 to 5 bytes encodes as 8 characters: alphabet characters for the data, then padding. |
| Base32.Encode | pkg/meshname/domain.go:12 | `EncodeToString` yields 8 characters for every started 5-byte block. |
| Base32.ReadQuantum | pkg/meshname/domain.go:18 | One quantum of the decoder either fails, or reads a full quantum, or reads a final quantum that ends in correct padding. |
| Base32.DecodeOfShape | pkg/meshname/domain.go:18 | Every input of 26 alphabet characters followed by 6 to 8 padding characters decodes to the 16 bytes its 26 characters stand for. |
| Base32.DecodeSixteenHasShape | pkg/meshname/domain.go:18-24 | Conversely, every input that decodes to exactly 16 bytes has that shape. |
| LabelCodec.PayloadOfNormalized | pkg/meshname/domain.go:17-18 | Decoding a label is decoding its upper-cased, newline-free form followed by the padding. |
| LabelCodec.PaddedShape | pkg/meshname/domain.go:17 | A normal form followed by the six padding characters has the 16-byte shape exactly when the normal form is a label shape. |
| LabelCodec.PayloadSixteen | pkg/meshname/domain.go:17-24 | A label decodes to exactly 16 bytes if and only if its normal form is 26 alphabet characters plus at most two `=`; those bytes are the ones the 26 characters stand for. |
| LabelCodec.PayloadIgnoresCase | pkg/meshname/domain.go:17 | Decoding is insensitive to the case of the label. |
| LabelCodec.Encode26OfBlocks | pkg/meshname/domain.go:12 | The 26 label characters of 16 bytes are three full encoded blocks plus the first two characters of the last byte's block. |
| LabelCodec.EncodeSixteen | pkg/meshname/domain.go:12-18 | The first 26 encoded characters of 16 bytes are alphabet characters, and they decode back to those bytes. |
| LabelCodec.EncodeLabelRoundTrip | pkg/meshname/domain.go:11-30 | The lower-case label of 16 bytes normalizes to the encoded characters and decodes back to the same 16 bytes. |
| PkgDomain.DomainFromIP | pkg/meshname/domain.go:11-13 | The label has 26 characters; each is a base32 alphabet character in lower case. |
| PkgDomain.IPFromDomain | pkg/meshname/domain.go:16-30 | Succeeds exactly for labels of the label shape, with the address the label spells. A decoder error is reported exactly when the decoder fails; the other failure is a wrong decoded size. |
| PkgDomain.IPFromDomainOfDomainFromIP | pkg/meshname/domain.go:11-30 | Round trip: the label of an address decodes to that address. |
| PkgDomain.DomainFromIPQuoteFree | pkg/meshname/domain.go:11-13 | A label never holds a double quote, so it can stand inside a JSON string unescaped. |
| PkgDomain.IPFromDomainIgnoresCase | pkg/meshname/domain.go:17 | Upper- or lower-casing a label does not change what it decodes to. |
| PkgDomain.TestDomainFromIP | pkg/meshname/domain_test.go:23-31 | The test address encodes to `aib7cwwdeob2vtnqf2cfnm7ilq`. |
| PkgDomain.TestIPFromDomain | pkg/meshname/domain_test.go:12-21 | `aib7cwwdeob2vtnqf2cfnm7ilq` decodes to the test address. |
| Bitwise.AndByte | pkg/meshname/server.go:121 | Byte AND sets exactly the bits set in both operands. |
| Bitwise.MaskByte | pkg/meshname/server.go:121 | The mask byte for `r` remaining prefix bits sets exactly its first `r` bits. |
| Bitwise.MaskedEqualIffBits | pkg/meshname/server.go:121 | Two bytes agree under a prefix mask exactly when their first `r` bits agree. |
| IPNet.To4 | pkg/meshname/server.go:121 | `IP.To4` gives a 4-byte form exactly for 4-byte and IPv4-mapped addresses; that form is their last four bytes. |
| IPNet.ContainsByBytes | pkg/meshname/server.go:121 | For a network of an address that is not IPv4-mapped, containment is byte-wise masked equality with the network address. |
| IPNet.MaskedPrefixIsPrefix | pkg/meshname/server.go:121 | Byte-wise masking with the mask of `ones` bits compares exactly the first `ones` bits. |
| IPNet.ContainsIsPrefix | pkg/meshname/server.go:121 | For addresses that are not IPv4-mapped, an IPv6 network contains an address exactly when their first `ones` bits agree. |
| IPNet.AnySubnetContains | cmd/meshnamed/main.go:73-75 | `::/0` contains every address except the IPv4-mapped ones. |
| Dns.MatchingRecords | pkg/meshname/server.go:105-110 | The matches are exactly the stored records whose owner name, type and class equal the question's. |
| Dns.MatchingRecordsAppend | pkg/meshname/server.go:106-109 | Matching keeps stored order. |
| Dns.MatchingRecordsCount | pkg/meshname/server.go:106-109 | A matching record is answered as often as it is stored; any other record never is. |
| Dns.SplitDomainNameJoin | pkg/meshname/server.go:98 | Joining the labels of a name with dots gives the name back, apart from its final dot. |
| Dns.SplitDomainNameOfJoin | pkg/meshname/server.go:98 | Splitting a joined list of non-empty, dot-free labels gives that list back. |
| Dispatch.Collect | pkg/meshname/server.go:97-127 | After the question loop, the local answers are those of the local actions in order. Exactly the forwarded servers have batches, and each batch lists that server's questions in request order. |
| Dispatch.BatchMembers | pkg/meshname/server.go:122 | A question is in a server's batch exactly when some position of the request holds it and forwards it to that server. |
| Dispatch.PlanForwardIff | pkg/meshname/server.go:97-127 | Whatever the classification, a question is queued for a server exactly when it is a question of the request that the classification forwards to that server. |
| Dispatch.PlanLocalIff | pkg/meshname/server.go:105-110 | A record is a local answer exactly when some question's classification answers with it. |
| Dispatch.PlanLocalOrder | pkg/meshname/server.go:97-110 | Local answers appear in question order. |
| Dispatch.Respond | pkg/meshname/server.go:130-143 | The reply starts with the local answers. It is only those when every exchange fails, and it contains every successful exchange's answers. Every other record in it comes from a successful exchange. Up to order, the reply is the local answers plus each batch's Answer section exactly once. |
| Dispatch.OutcomesOfRemove | pkg/meshname/server.go:130-139 | The merged answers of a set of batches are any one batch's answers plus the merged answers of the rest. |
| Dispatch.ForwardedIsOutcomes | pkg/meshname/server.go:130-139 | Whatever the iteration order, the merged forwarded answers hold each batch's Answer section exactly once. |
| Dispatch.ForwardedOnly | pkg/meshname/server.go:130-139 | Every merged forwarded answer belongs to the Answer section of some successful exchange. |
| Dispatch.ForwardedSummary | pkg/meshname/server.go:130-139 | Failed exchanges contribute nothing; each successful exchange's answers are all in the merged answers. |
| Dispatch.RespondOrderIrrelevant | pkg/meshname/server.go:130-139 | Up to order, the reply does not depend on the map iteration order over the batches. |
| PkgServer.New | pkg/meshname/server.go:29-41 | A new server is stopped, has an empty record table, and keeps the given address, networks and remote-lookup setting. |
| PkgServer.Start | pkg/meshname/server.go:55-83 | Afterwards the server is started. The call succeeds exactly when it was stopped; otherwise it fails with `AlreadyStarted` and changes nothing. Table and networks are kept. |
| PkgServer.Stop | pkg/meshname/server.go:43-53 | Afterwards the server is stopped; stopping a stopped server changes nothing. Table and networks are kept. |
| PkgServer.Lifecycle | pkg/meshname/server.go:43-83 | A second Start fails, a second Stop is harmless, and a stopped server can be started again and stopped back to where it was. |
| PkgServer.ConfigureDNSRecords | pkg/meshname/server.go:85-89 | The table is replaced by the new one, and nothing else changes. |
| PkgServer.ConfigureReplaces | pkg/meshname/server.go:85-110 | After a swap only the new table answers locally. |
| PkgServer.HandleRequest | pkg/meshname/server.go:91-144 | The reply begins with the local answers of the request. |
| PkgServer.ClassifyForward | pkg/meshname/server.go:98-126 | One question is forwarded to `a` exactly when all of the following hold: it has two or more labels; its label is not tabled; the client may look up remotely; the label decodes to `a`; and the subnet of its top-level label contains `a`. |
| PkgServer.ForwardedIff | pkg/meshname/server.go:97-127 | The same condition, for membership in the request's batch for `a`. |
| PkgServer.TabledNeverForwarded | pkg/meshname/server.go:105-111 | A question whose label is tabled is never forwarded. |
| PkgServer.ShortNameIgnored | pkg/meshname/server.go:98-102 | A name with fewer than two labels is skipped. |
| PkgServer.ClassifyLocal | pkg/meshname/server.go:105-110 | One question is answered locally with a record exactly when its label is tabled and the record is stored under it and matches. |
| PkgServer.LocalIff | pkg/meshname/server.go:97-110 | The local answers are exactly the stored records, under tabled labels, that match some question of the request. |
| PkgServer.RemoteLookupExamples | pkg/meshname/server.go:146-153 | Without the allow-remote setting, `127.0.0.1:` and `[::1]:` clients are allowed, while `127.0.0.10:` and other addresses are not. |
| PkgServer.TestClassify | pkg/meshname/server_test.go:22-37 | The test question is answered from the table with the stored record. |
| PkgServer.TestLocalDomain | pkg/meshname/server_test.go:15-50 | The test AAAA question gets exactly the stored record and forwards nothing, from any client. |
| ZoneConfig.UntilQuote | pkg/meshname/config.go:19-20 | A reader for one JSON string body: the longest quote-free prefix, stopping at the first `"`. |
| ZoneConfig.ReadConfOf | pkg/meshname/config.go:19-20 | Reading an object built as opening, key, middle, record and closing gives back that key and record when neither holds a quote. |
| ZoneConfig.MapConfRead | pkg/meshname/config.go:19-20 | The one-key object read back gives the label and its self record, when neither holds a quote. |
| ZoneConfig.DomainConfRead | src/meshname/server.go:45-46 | The `Domain`/`Records` object read back gives the label and its self record, when neither holds a quote. |
| ZoneConfig.SelfRecordQuoteFree | pkg/meshname/config.go:19 | The self record holds no quote when its label, zone and target hold none. |
| ZoneConfig.ParseRecords | pkg/meshname/config.go:43-49 | The record strings of one key parse exactly when each of them does, giving one record per string in order. |
| ZoneConfig.AppendParsed | pkg/meshname/config.go:43-49 | Parsing one key either fails on one of its strings, or adds that key's records; an empty list adds nothing. |
| ZoneConfig.ParseRecordsMap | pkg/meshname/config.go:40-52 | All or nothing. It fails exactly when some string fails, reporting that string. On success, the keys are those with non-empty lists and each holds its parsed list. An empty input gives an empty table. |
| PkgConfig.GenConf | pkg/meshname/config.go:13-23 | Fails with an invalid-IP error exactly when `target` does not parse. |
| PkgConfig.GenConfNamesTarget | pkg/meshname/config.go:17-20 | The generated object's key is the label `DomainFromIP` gives for the target's address and decodes back to it. Its one record line is `<key>.<zone> AAAA <target>`. |
| PkgConfig.GenConfReads | pkg/meshname/config.go:17-20 | For a quote-free target and zone, reading the generated text gives back the target's label and the record `<label>.<zone> AAAA <target>`. |
| PkgConfig.ParseDNSRecordsMap | pkg/meshname/config.go:40-52 | As `ZoneConfig.ParseRecordsMap`, for any map iteration order. |
| SrcServer.DomainFromIP | src/meshname/server.go:19-21 | The label has 26 lower-case alphabet characters. |
| SrcServer.IPFromDomain | src/meshname/server.go:23-37 | Succeeds exactly for labels of the label shape, with the address they spell; every failure is a decoder error or a wrong size. |
| SrcServer.IPFromDomainOfDomainFromIP | src/meshname/server.go:19-37 | Round trip: the label of an address decodes to that address. |
| SrcServer.TestConversions | src/meshname/server_test.go:11-31 | The test vector, in both directions. |
| SrcServer.GenConf | src/meshname/server.go:39-49 | Fails with an invalid-IP error exactly when `target` does not parse. |
| SrcServer.GenConfNamesTarget | src/meshname/server.go:44-46 | The `Domain` value is the label `DomainFromIP` gives for the target's address and decodes back to it. The record line is `<label>.meshname. AAAA <target>`. |
| SrcServer.GenConfReads | src/meshname/server.go:44-46 | For a quote-free target, reading the generated text gives back the target's label and the record `<label>.meshname. AAAA <target>`. |
| SrcServer.HandleRequest | src/meshname/server.go:125-171 | The reply begins with the local answers of the request. |
| SrcServer.UnresolvedIgnored | src/meshname/server.go:131-146 | A question whose label does not decode into the valid subnet is skipped, even if the label is tabled. |
| SrcServer.ClassifyForward | src/meshname/server.go:130-157 | One question is forwarded to `a` exactly when its label decodes to `a` inside the subnet, is not tabled, and the client is on loopback. |
| SrcServer.ForwardedIff | src/meshname/server.go:130-158 | The same condition, for membership in the request's batch for `a`. |
| SrcServer.RemoteClientNeverForwards | src/meshname/server.go:153-157 | A request from a non-loopback client forwards nothing. |
| SrcServer.ClassifyLocal | src/meshname/server.go:138-152 | A record is a local answer to one question exactly when the label decodes into the subnet, is tabled, and holds the matching record. |
| SrcServer.LocalIff | src/meshname/server.go:130-152 | The local answers are exactly those records, over all questions of the request. |
| SrcConfig.GenConf | src/meshname/config.go:14-24 | Fails with an invalid-IP error exactly when `target` does not parse. |
| SrcConfig.ParseZoneConfigMap | src/meshname/config.go:40-52 | As `ZoneConfig.ParseRecordsMap`, for any map iteration order. |
| CmdMeshnamed.Lookup | cmd/meshnamed/main.go:60-77 | Succeeds exactly when the label has the label shape and its address lies in the valid subnet. It fails with the subnet error exactly when the shape holds but the address lies outside. |
| CmdMeshnamed.LookupDefaultSubnet | cmd/meshnamed/main.go:18 | Under `::/0`, a well-formed label is refused only when it spells an IPv4-mapped address. |
| CmdMeshnamed.GenConf | cmd/meshnamed/main.go:79-89 | Fails with an invalid-IP error exactly when `target` does not parse. |
| CmdMeshnamed.GenConfSameAsSrc | cmd/meshnamed/main.go:79-89 | The text is the `src/meshname` revision's, so `SrcServer.GenConfNamesTarget` applies to it. |
| CmdMeshnamed.HandleRequest | cmd/meshnamed/main.go:91-129 | The reply begins with the local answers of the request. |
| CmdMeshnamed.PlanSameAsSrc | cmd/meshnamed/main.go:96-117 | Every request is planned exactly as the `src/meshname` server plans it. |
| CmdMeshnamed.ForwardedIff | cmd/meshnamed/main.go:96-117 | A question is queued for `a` exactly when its label looks up to `a`, is not tabled, and the client is on loopback. |
| Meshnamed.PortOfIffKnown | meshnamed.go:19-31 | Reading the port map gives a non-zero port exactly for the eleven known services, and every port fits in 16 bits. |
| Meshnamed.Lookup | meshnamed.go:34-51 | Succeeds exactly when the label has the label shape and its address lies in the valid subnet, with that address. |
| Meshnamed.Answer | meshnamed.go:57-90 | Any answer matches its question by name, type and class, carries the maximal TTL, and exists only for AAAA or SRV questions. |
| Meshnamed.AAAAIff | meshnamed.go:58-75 | An AAAA question is answered exactly when it is class IN and its third-from-last label looks up; the answer is that address. |
| Meshnamed.SRVIff | meshnamed.go:58-89 | An SRV question is answered exactly when, in addition, the name has five or more labels and its first two name a known service. The answer gives that port and the name `<label>.mesh.arpa.`. |
| Meshnamed.HandleRequest | meshnamed.go:53-94 | The reply has exactly one record per answered question, so no more records than questions. |
| Meshnamed.ReplyIff | meshnamed.go:57-91 | The reply holds exactly the per-question answers, each record as many times as questions are answered with it. |
| Meshnamed.ReplySnoc | meshnamed.go:57-91 | One more question appends its answer, if any, at the end: answers come in question order. |
| Meshnamed.GatherSnoc | meshnamed.go:57-91 | The same for any per-question answer function. |
| Meshnamed.GatherLength | meshnamed.go:57-91 | Gathering gives one record per answered question. |
| Meshnamed.GatherMultiplicity | meshnamed.go:57-91 | Gathering gives each record as often as questions are answered with it. |
| Meshnamed.ReplyAnswersQuestions | meshnamed.go:57-91 | Every record in the reply answers some question of the request. |
| Meshnamed.ExampleAAAA | meshnamed.go:71-75 | The AAAA question for `_xmpp-client._tcp.<test label>.mesh.arpa.` gets the test address. |
| Meshnamed.ExampleSRV | meshnamed.go:76-89 | The SRV question for the same name gets port 5222 on `<test label>.mesh.arpa.`. |
| CmdMeshname.ReverseLookup | cmd/meshname/main.go:14-21 | Fails exactly when `target` does not parse. Otherwise the result is `DomainFromIP`'s 26-character label for the address, in lower-case base32 letters and digits, followed by `.meshname`. |
| CmdMeshname.Lookup | cmd/meshname/main.go:23-42 | Fewer than three dot-separated pieces give `InvalidDomain`. Any success has a 26-character label and the bytes it decodes to. The result is 16 bytes exactly when that label has the label shape. |
| CmdMeshname.SuffixGuardInert | cmd/meshname/main.go:25-27 | A target of three or more pieces is never a suffix of `.meshname`, so the reversed guard cannot fire. |
| CmdMeshname.LookupChecked | cmd/meshname/main.go:23-42 | Corrected lookup: succeeds exactly when the label has the label shape, with the address it spells. |
| CmdMeshname.CheckedAgrees | cmd/meshname/main.go:23-42 | The corrected lookup agrees with the written one whenever that one yields 16 bytes. |
| CmdMeshname.RoundTrip | cmd/meshname/main.go:14-42 | The printed name has no final dot, so `lookup` refuses it. With the dot added, both lookups recover the address. |
| CmdMeshname.NewlineLabelAccepted | cmd/meshname/main.go:29-41 | The 26-character label `AA` followed by 24 line feeds passes the length check and yields a 1-byte result. |
| CmdMeshname.NewlineLabelRefused | cmd/meshname/main.go:29-41 | The corrected lookup refuses that label. |

## Left out

- Sockets, the `dns.Server` and its handler registration (`dns.HandleFunc`), goroutines and the
  readiness channel of `Start`: `Start` and `Stop` are modelled only as transitions of the
  started flag.
- Locks (`sync.RWMutex`): requests are modelled as reading one table snapshot, which is what
  the read lock around the question loop guarantees.
- `ParseConfigFile`, `LoadConfig` and `loadConfig`: file and JSON input. The models begin at the
  decoded map (`ParseDNSRecordsMap`, `ParseZoneConfigMap`).
- `dns.NewRR`, `net.ParseIP`, the DNS client exchange and its 5-second timeout: foreign code,
  passed in as functions.
- `SetReply`, `WriteMsg`, and the header and other sections of the reply: only the Answer
  section is modelled.
- `IP.String`: forwarding batches are keyed by the address itself. This assumes distinct
  addresses print differently. The command-line `lookup` returns bytes rather than their text.
- Logging, `main` functions, the `Init` and `Start` methods of `src/meshname`, and the
  `LISTEN_ADDR` environment variable. `MESH_SUBNET` is the `validSubnet` parameter.
- Escaped dots in `dns.SplitDomainName`: names are split at every dot.
- Non-ASCII labels: characters are treated as ASCII. `ToUpper`/`ToLower` map ASCII letters only,
  but Go's `strings.ToUpper` also maps `ı` (U+0131) to `I` and `ſ` (U+017F) to `S`. A label with
  those characters can decode in Go and does not in the model. The command-line `lookup` checks
  the label's length with `len`, which counts UTF-8 bytes, while the model counts characters.
  So a label of thirteen `ſ` (26 bytes) passes that check in Go and is refused by the model.
- Error texts: errors are kinds (`Results.Error`), not messages.
- `src/meshname/config.go` calls `DomainFromIP(&ip)`, but the `src/meshname` revision's
  `DomainFromIP` takes an `IP`, and that file defines `GenConf` a second time in the same
  package. The package does not compile as given. Both `GenConf`s are modelled, each in its own
  module.
- `pkg/meshname/server_test.go` calls `New` with three arguments. The test model uses
  `allowRemote = false`, which is the loopback-only policy the test client meets anyway.
- PkgServer.HandleRequest: the reply is stated to begin with the local answers. The forwarded
  part is characterised by `Dispatch.Respond` and `Dispatch.RespondOrderIrrelevant`, not
  restated here.
- SrcServer.HandleRequest: as for `PkgServer.HandleRequest`.
- CmdMeshnamed.HandleRequest: as for `PkgServer.HandleRequest`.
- Meshnamed.HandleRequest: its own ensures fixes the number of records. Which records, and how
  often, is stated by `Meshnamed.ReplyIff`, and their order by `Meshnamed.ReplySnoc`.

## Findings

| source | as written | input that shows it | evidently intended | confidence | as-written member | corrected member |
|---|---|---|---|---|---|---|
| cmd/meshname/main.go:29-41 | `lookup` checks that the label has 26 characters. It then decodes `ToUpper(label) + "======"` and returns whatever `DecodeString` yields. `DecodeString` drops CR and LF, and no check asks for 16 bytes. | The label `AA` followed by 24 line feeds, queried as `<label>.meshname.`, passes the length check. It decodes to the single byte `0`. `net.IP.String` of that 1-byte slice is `?00`, which the tool prints with a nil error. | Refuse every label that does not decode to exactly 16 bytes, as the daemons do. | not executed | CmdMeshname.NewlineLabelAccepted | CmdMeshname.LookupChecked |
