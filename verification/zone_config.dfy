/** Configuration text and tables shared by the library and the older package revision: the text
    `GenConf` prints for a server address, and the all-or-nothing construction of the record table
    from the decoded configuration map. */
module ZoneConfig {
  import opened Results
  import opened Text
  import opened Dns
  import opened IPNet
  import opened MapOrder

  /** `net.ParseIP` followed by `To16`: the 16-byte form of an address text, if it is one. */
  type ParseIP = string -> Option<Address>

  /** `dns.NewRR`: the record a zone-file line describes, if it parses. */
  type NewRR = string -> Option<RR>

  // ---------------------------------------------------------------------------------------------
  // Configuration text

  /** The zone-file line of the server's own AAAA record. */
  function SelfRecord(sub: string, zone: string, target: string): string
  {
    sub + "." + zone + " AAAA " + target
  }

  /** The pieces of the one-key object `{"<label>":["<record>"]}` as `GenConf` prints it: the
      record line `\t\t"<record>"\n` substituted into `{\n\t"<label>":[\n<line>\t]\n}`. */
  const MapOpen := "{\n\t\""
  const MapMiddle := "\":[\n\t\t\""
  const ConfClose := "\"\n\t]\n}"

  /** The pieces of the object `{"Domain":"<label>","Records":["<record>"]}` the older `GenConf`
      prints. */
  const DomainOpen := "{\n\t\"Domain\":\""
  const DomainMiddle := "\",\n\t\"Records\":[\n\t\t\""

  /** Where the pieces of a five-part text sit. */
  lemma Frame(p: string, a: string, m: string, b: string, q: string)
    ensures var t := p + a + m + b + q;
            && |t| == |p| + |a| + |m| + |b| + |q|
            && t[..|p|] == p
            && t[|p|..|p| + |a|] == a
            && t[|p| + |a|..|p| + |a| + |m|] == m
            && t[|p| + |a| + |m|..|t| - |q|] == b
            && t[|t| - |q|..] == q
  {
  }

  /** The one-key object. */
  function MapConf(sub: string, zone: string, target: string): (text: string)
    ensures |text| == |MapOpen| + |sub| + |MapMiddle| + |SelfRecord(sub, zone, target)| + |ConfClose|
    ensures text[..|MapOpen|] == MapOpen
    ensures text[|MapOpen|..|MapOpen| + |sub|] == sub
    ensures text[|MapOpen| + |sub|..|MapOpen| + |sub| + |MapMiddle|] == MapMiddle
    ensures text[|MapOpen| + |sub| + |MapMiddle|..|text| - |ConfClose|] == SelfRecord(sub, zone, target)
    ensures text[|text| - |ConfClose|..] == ConfClose
  {
    Frame(MapOpen, sub, MapMiddle, SelfRecord(sub, zone, target), ConfClose);
    MapOpen + sub + MapMiddle + SelfRecord(sub, zone, target) + ConfClose
  }

  /** The `Domain`/`Records` object. */
  function DomainConf(sub: string, zone: string, target: string): (text: string)
    ensures |text| == |DomainOpen| + |sub| + |DomainMiddle| + |SelfRecord(sub, zone, target)| + |ConfClose|
    ensures text[..|DomainOpen|] == DomainOpen
    ensures text[|DomainOpen|..|DomainOpen| + |sub|] == sub
    ensures text[|DomainOpen| + |sub|..|DomainOpen| + |sub| + |DomainMiddle|] == DomainMiddle
    ensures text[|DomainOpen| + |sub| + |DomainMiddle|..|text| - |ConfClose|] == SelfRecord(sub, zone, target)
    ensures text[|text| - |ConfClose|..] == ConfClose
  {
    Frame(DomainOpen, sub, DomainMiddle, SelfRecord(sub, zone, target), ConfClose);
    DomainOpen + sub + DomainMiddle + SelfRecord(sub, zone, target) + ConfClose
  }

  // ---------------------------------------------------------------------------------------------
  // Reading the text back

  /** The longest prefix of `s` without a double quote: a JSON string body read up to its
      closing quote (escapes are not interpreted). */
  function UntilQuote(s: string): (r: string)
    ensures |r| <= |s| && r == s[..|r|] && '"' !in r
    ensures |r| < |s| ==> s[|r|] == '"'
  {
    if |s| == 0 || s[0] == '"' then []
    else
      var rest := UntilQuote(s[1..]);
      assert s[1..][..|rest|] == s[1..|rest| + 1];
      [s[0]] + rest
  }

  /** A quote-free string followed by a quote is read back whole. */
  lemma {:induction false} UntilQuoteOf(a: string, b: string)
    requires '"' !in a && |b| > 0 && b[0] == '"'
    ensures UntilQuote(a + b) == a
  {
    if |a| > 0 {
      assert (a + b)[0] == a[0];
      assert (a + b)[1..] == a[1..] + b;
      UntilQuoteOf(a[1..], b);
      assert a == [a[0]] + a[1..];
    }
  }

  /** Reads a generated object: the opening `open`, a quoted key, the text `middle`, a quoted
      record line and the closing; gives the key and the record line. */
  function ReadConf(open: string, middle: string, text: string): (r: Option<(string, string)>)
    ensures r.Some? ==> '"' !in r.value.0 && '"' !in r.value.1
  {
    if !HasPrefix(text, open) then None
    else
      var rest := text[|open|..];
      var key := UntilQuote(rest);
      var after := rest[|key|..];
      if !HasPrefix(after, middle) then None
      else
        var rest2 := after[|middle|..];
        var rec := UntilQuote(rest2);
        if rest2[|rec|..] != ConfClose then None else Some((key, rec))
  }

  /** A five-part text with quote-free key and record reads back as that key and record. */
  lemma {:induction false} ReadConfOf(open: string, middle: string, key: string, rec: string)
    requires |middle| > 0 && middle[0] == '"' && '"' !in key && '"' !in rec
    ensures ReadConf(open, middle, open + key + middle + rec + ConfClose) == Some((key, rec))
  {
    var text := open + key + middle + rec + ConfClose;
    assert text[..|open|] == open;
    var rest := text[|open|..];
    assert rest == key + (middle + rec + ConfClose);
    UntilQuoteOf(key, middle + rec + ConfClose);
    var after := rest[|key|..];
    assert after == middle + (rec + ConfClose);
    assert after[..|middle|] == middle;
    var rest2 := after[|middle|..];
    assert rest2 == rec + ConfClose;
    assert ConfClose[0] == '"';
    UntilQuoteOf(rec, ConfClose);
    assert rest2[|rec|..] == ConfClose;
  }

  /** The one-key object gives back its key and its record line. */
  lemma MapConfRead(sub: string, zone: string, target: string)
    requires '"' !in sub && '"' !in SelfRecord(sub, zone, target)
    ensures ReadConf(MapOpen, MapMiddle, MapConf(sub, zone, target)) == Some((sub, SelfRecord(sub, zone, target)))
  {
    assert MapMiddle[0] == '"';
    ReadConfOf(MapOpen, MapMiddle, sub, SelfRecord(sub, zone, target));
  }

  /** The `Domain`/`Records` object gives back its `Domain` value and its record line. */
  lemma DomainConfRead(sub: string, zone: string, target: string)
    requires '"' !in sub && '"' !in SelfRecord(sub, zone, target)
    ensures ReadConf(DomainOpen, DomainMiddle, DomainConf(sub, zone, target)) == Some((sub, SelfRecord(sub, zone, target)))
  {
    assert DomainMiddle[0] == '"';
    ReadConfOf(DomainOpen, DomainMiddle, sub, SelfRecord(sub, zone, target));
  }

  /** The record line has no quote when its parts have none. */
  lemma SelfRecordQuoteFree(sub: string, zone: string, target: string)
    requires '"' !in sub && '"' !in zone && '"' !in target
    ensures '"' !in SelfRecord(sub, zone, target)
  {
    assert '"' !in " AAAA ";
  }

  // ---------------------------------------------------------------------------------------------
  // Record table

  /** Parsing one key's record strings: all of them, in order, or nothing. */
  function ParseRecords(texts: seq<string>, newRR: NewRR): (r: Option<seq<RR>>)
    ensures r.Some? <==> forall i :: 0 <= i < |texts| ==> newRR(texts[i]).Some?
    ensures r.Some? ==> |r.value| == |texts| && forall i :: 0 <= i < |texts| ==> newRR(texts[i]) == Some(r.value[i])
  {
    if |texts| == 0 then Some([])
    else
      match newRR(texts[0])
      case None => None
      case Some(rr) =>
        match ParseRecords(texts[1..], newRR)
        case None => None
        case Some(rest) =>
          assert forall i :: 1 <= i < |texts| ==> texts[i] == texts[1..][i - 1];
          Some([rr] + rest)
  }

  /** Two record lists that agree with the parses of the same strings are equal. */
  lemma ParsedUnique(texts: seq<string>, newRR: NewRR, a: seq<RR>)
    requires |a| == |texts| && forall i :: 0 <= i < |texts| ==> newRR(texts[i]) == Some(a[i])
    ensures ParseRecords(texts, newRR) == Some(a)
  {
    assert forall i :: 0 <= i < |texts| ==> newRR(texts[i]).Some?;
    var r := ParseRecords(texts, newRR);
    assert forall i :: 0 <= i < |a| ==> Some(r.value[i]) == Some(a[i]);
    assert r.value == a;
  }

  /** The inner loop of `ParseDNSRecordsMap` for one key not yet in the table: each record string
      is parsed and appended under the key, and the first failure aborts. */
  method AppendParsed(result: map<string, seq<RR>>, key: string, texts: seq<string>, newRR: NewRR)
    returns (r: Result<map<string, seq<RR>>>)
    requires key !in result
    ensures r.Success? <==> ParseRecords(texts, newRR).Some?
    ensures r.Failure? ==> r.error.BadRecord? && newRR(r.error.text).None? && r.error.text in texts
    ensures r.Success? && |texts| == 0 ==> r.value == result
    ensures r.Success? && |texts| > 0 ==> r.value == result[key := ParseRecords(texts, newRR).value]
  {
    var table := result;
    var i := 0;
    while i < |texts|
      invariant 0 <= i <= |texts|
      invariant forall j :: 0 <= j < i ==> newRR(texts[j]).Some?
      invariant i == 0 ==> table == result
      invariant i > 0 ==> key in table && |table[key]| == i && table == result[key := table[key]]
      invariant i > 0 ==> forall j :: 0 <= j < i ==> newRR(texts[j]) == Some(table[key][j])
    {
      match newRR(texts[i]) {
        case Some(rr) =>
          var queued := if key in table then table[key] else [];
          table := table[key := queued + [rr]];
        case None =>
          return Failure(BadRecord(texts[i]));
      }
      i := i + 1;
    }
    if |texts| > 0 {
      ParsedUnique(texts, newRR, table[key]);
    }
    r := Success(table);
  }

  /** `ParseDNSRecordsMap`: every record string of every key, keys in map iteration order
      `order`, is parsed and appended under its key; the first one that fails aborts the whole
      construction with that record's error. */
  method ParseRecordsMap(input: map<string, seq<string>>, order: seq<string>, newRR: NewRR)
    returns (r: Result<map<string, seq<RR>>>)
    requires IsOrderOf(order, input.Keys)
    ensures r.Success? <==> forall k :: k in input ==> ParseRecords(input[k], newRR).Some?
    ensures r.Failure? ==> r.error.BadRecord? && newRR(r.error.text).None?
                           && exists k :: k in input && r.error.text in input[k]
    ensures r.Success? ==> forall k :: k in r.value <==> k in input && |input[k]| > 0
    ensures r.Success? ==> forall k :: k in r.value ==> ParseRecords(input[k], newRR) == Some(r.value[k])
    ensures input == map[] ==> r == Success(map[])
  {
    var result: map<string, seq<RR>> := map[];
    var n := 0;
    while n < |order|
      invariant 0 <= n <= |order|
      invariant forall j :: 0 <= j < n ==> ParseRecords(input[order[j]], newRR).Some?
      invariant forall k :: k in result <==> k in order[..n] && |input[k]| > 0
      invariant forall k :: k in result ==> ParseRecords(input[k], newRR) == Some(result[k])
    {
      var key := order[n];
      assert key !in order[..n] by {
        assert forall j :: 0 <= j < n ==> order[..n][j] != key;
      }
      var step := AppendParsed(result, key, input[key], newRR);
      if step.Failure? {
        return step;
      }
      result := step.value;
      assert order[..n + 1] == order[..n] + [key];
      n := n + 1;
    }
    assert order[..n] == order;
    if input == map[] {
      assert result.Keys == {};
    }
    r := Success(result);
  }
}
