/** The part of the DNS message model the daemon relies on: questions, resource records reduced
    to their header and data, and the splitting of owner names into labels. */
module Dns {
  import opened Text
  import opened IPNet

  const TypeAAAA: nat := 28
  const TypeSRV: nat := 33
  const ClassINET: nat := 1

  datatype Question = Question(name: string, qtype: nat, qclass: nat)

  datatype Header = Header(name: string, rrtype: nat, rrclass: nat, ttl: nat)

  /** Record data: the daemon only ever builds AAAA and SRV records itself; everything read from
      configuration is carried opaquely. */
  datatype Rdata =
    | Opaque(text: string)
    | AAAAData(addr: Address)
    | SRVData(priority: nat, weight: nat, port: nat, target: string)

  datatype RR = RR(header: Header, data: Rdata)

  /** A record answers a question when owner name, type and class are all equal. */
  predicate Answers(rec: RR, q: Question)
  {
    rec.header.name == q.name && rec.header.rrtype == q.qtype && rec.header.rrclass == q.qclass
  }

  /** The records of a list that answer a question, in list order. */
  function MatchingRecords(records: seq<RR>, q: Question): (r: seq<RR>)
    ensures |r| <= |records|
    ensures forall x :: x in r <==> x in records && Answers(x, q)
  {
    if |records| == 0 then []
    else if Answers(records[0], q) then [records[0]] + MatchingRecords(records[1..], q)
    else MatchingRecords(records[1..], q)
  }

  /** Matching distributes over concatenation, so stored order is kept. */
  lemma {:induction false} MatchingRecordsAppend(a: seq<RR>, b: seq<RR>, q: Question)
    ensures MatchingRecords(a + b, q) == MatchingRecords(a, q) + MatchingRecords(b, q)
  {
    if |a| > 0 {
      assert (a + b)[1..] == a[1..] + b;
      MatchingRecordsAppend(a[1..], b, q);
    } else {
      assert a + b == b;
    }
  }

  /** Each record is answered as often as it is stored when it matches, and never otherwise. */
  lemma {:induction false} MatchingRecordsCount(records: seq<RR>, q: Question, x: RR)
    ensures multiset(MatchingRecords(records, q))[x] == if Answers(x, q) then multiset(records)[x] else 0
  {
    if |records| > 0 {
      MatchingRecordsCount(records[1..], q, x);
      assert records == [records[0]] + records[1..];
    }
  }

  // ---------------------------------------------------------------------------------------------
  // Owner names

  predicate IsFqdn(name: string) { |name| > 0 && name[|name| - 1] == '.' }

  /** The labels of a name: the pieces between dots, without the empty piece after a final dot;
      the empty name and the root have none. Escaped dots are not modelled. */
  function SplitDomainName(name: string): (labels: seq<string>)
    ensures forall i :: 0 <= i < |labels| ==> '.' !in labels[i]
  {
    if name == "" || name == "." then []
    else
      var parts := Split(name, '.');
      if IsFqdn(name) then parts[..|parts| - 1] else parts
  }

  /** Joining the labels with dots gives back the name, apart from its final dot. */
  lemma SplitDomainNameJoin(name: string)
    requires name != "" && name != "."
    ensures |SplitDomainName(name)| > 0
    ensures IsFqdn(name) ==> Join(SplitDomainName(name), '.') + "." == name
    ensures !IsFqdn(name) ==> Join(SplitDomainName(name), '.') == name
  {
    var parts := Split(name, '.');
    JoinSplit(name, '.');
    if IsFqdn(name) {
      var body := name[..|name| - 1];
      assert name == body + ".";
      SplitDotEnd(body);
      JoinSplit(body, '.');
    }
  }

  /** `Split` of a name ending in a dot ends in an empty piece. */
  lemma {:induction false} SplitDotEnd(body: string)
    ensures Split(body + ".", '.') == Split(body, '.') + [""]
  {
    if |body| > 0 {
      var s := body + ".";
      assert s[1..] == body[1..] + ".";
      SplitDotEnd(body[1..]);
      var rest := Split(body[1..], '.');
      if body[0] != '.' {
        assert Split(s[1..], '.')[0] == rest[0];
        assert Split(s[1..], '.')[1..] == rest[1..] + [""];
      }
    }
  }

  /** Non-empty dot-free labels joined with dots (with or without a final dot) split back into
      the same labels. */
  lemma {:induction false} SplitDomainNameOfJoin(labels: seq<string>, fqdn: bool)
    requires |labels| > 0
    requires forall i :: 0 <= i < |labels| ==> |labels[i]| > 0 && '.' !in labels[i]
    ensures SplitDomainName(Join(labels, '.') + (if fqdn then "." else "")) == labels
  {
    var body := Join(labels, '.');
    SplitOfJoin(labels);
    JoinNonEmpty(labels);
    if fqdn {
      SplitDotEnd(body);
      assert Split(body + ".", '.') == labels + [""];
      assert (labels + [""])[..|labels|] == labels;
    } else {
      assert body + "" == body;
    }
  }

  lemma {:induction false} JoinNonEmpty(labels: seq<string>)
    requires |labels| > 0
    requires forall i :: 0 <= i < |labels| ==> |labels[i]| > 0 && '.' !in labels[i]
    ensures |Join(labels, '.')| > 0 && Join(labels, '.')[|Join(labels, '.')| - 1] != '.'
  {
    if |labels| > 1 {
      JoinNonEmpty(labels[1..]);
      var j := Join(labels[1..], '.');
      assert Join(labels, '.') == labels[0] + ['.'] + j;
      assert Join(labels, '.')[|Join(labels, '.')| - 1] == j[|j| - 1];
    } else {
      assert labels[0][|labels[0]| - 1] in labels[0];
    }
  }

  lemma {:induction false} SplitOfJoin(labels: seq<string>)
    requires |labels| > 0
    requires forall i :: 0 <= i < |labels| ==> '.' !in labels[i]
    ensures Split(Join(labels, '.'), '.') == labels
  {
    if |labels| == 1 {
      SplitNoSep(labels[0], '.');
    } else {
      SplitOfJoin(labels[1..]);
      SplitCons(labels[0], '.', Join(labels[1..], '.'));
      assert labels == [labels[0]] + labels[1..];
    }
  }
}
