/** The meshname label codec: a 16-byte address is written as the first 26 characters of its
    standard base32 encoding in lower case, and a label is read back by upper-casing it, adding
    six padding characters and decoding with Go's standard base32 decoder. */
module LabelCodec {
  import opened Results
  import opened Text
  import opened Base32

  /** Length of a meshname label. */
  const LabelLength := 26

  /** The padding appended before decoding. */
  const Padding := "======"

  /** What the decoder actually reads of a label: upper-cased, with CR and LF dropped. */
  function Normalize(sub: string): string
  {
    StripNewlines(ToUpper(sub))
  }

  /** A normalized label the decoder turns into 16 bytes: 26 alphabet characters followed by at
      most two padding characters of its own. */
  predicate IsLabelShape(n: string)
  {
    LabelLength <= |n| <= LabelLength + 2 && AllSymbols(n[..LabelLength]) && AllPad(n[LabelLength..])
  }

  /** The bytes a label decodes to: `DecodeString(ToUpper(sub) + "======")`. */
  function Payload(sub: string): Option<seq<bv8>>
  {
    DecodeString(ToUpper(sub) + Padding)
  }

  /** The first 26 characters of the standard encoding of at least 16 bytes. */
  function Encode26(a: seq<bv8>): (s: string)
    requires |a| >= 16
    ensures |s| == LabelLength
  {
    Encode(a)[..LabelLength]
  }

  /** The label of an address: the 26 characters in lower case. */
  function EncodeLabel(a: seq<bv8>): (s: string)
    requires |a| >= 16
    ensures |s| == LabelLength
  {
    ToLower(Encode26(a))
  }

  // ---------------------------------------------------------------------------------------------
  // Decoding

  /** The padding survives newline stripping, so decoding a label is decoding its normal form
      followed by the padding. */
  lemma PayloadOfNormalized(sub: string)
    ensures Payload(sub) == DecodeQuanta(Normalize(sub) + Padding)
  {
    StripNewlinesAppend(ToUpper(sub), Padding);
    StripNewlinesNoop(Padding);
  }

  /** A normalized label followed by the padding has the shape of a 16-byte input exactly when the
      label has the shape of a meshname label. */
  lemma PaddedShape(n: string)
    ensures Decodes16Shape(n + Padding) <==> IsLabelShape(n)
    ensures IsLabelShape(n) ==> (n + Padding)[..26] == n[..LabelLength]
  {
    var t := n + Padding;
    if IsLabelShape(n) {
      assert t[..26] == n[..26];
      forall i | 26 <= i < 32 ensures t[i] == Pad {
        if i < |n| { assert t[i] == n[LabelLength..][i - 26]; }
      }
      assert AllPad(t[26..32]) by {
        forall i | 0 <= i < 6 ensures t[26..32][i] == Pad { assert t[26..32][i] == t[26 + i]; }
      }
    }
    if Decodes16Shape(n + Padding) {
      assert |n| >= 26;
      assert n[..26] == t[..26];
      forall i | 0 <= i < |n| - 26 ensures n[LabelLength..][i] == Pad {
        assert n[LabelLength..][i] == t[26..32][i];
      }
    }
  }

  /** A label decodes to exactly 16 bytes if and only if its normal form has the label shape, and
      those bytes are the ones its first 26 normalized characters stand for. */
  lemma PayloadSixteen(sub: string)
    ensures (Payload(sub).Some? && |Payload(sub).value| == 16) <==> IsLabelShape(Normalize(sub))
    ensures IsLabelShape(Normalize(sub)) ==> Payload(sub) == Some(Decode26(Normalize(sub)[..LabelLength]))
  {
    var n := Normalize(sub);
    PayloadOfNormalized(sub);
    PaddedShape(n);
    if IsLabelShape(n) {
      DecodeOfShape(n + Padding);
    }
    if Payload(sub).Some? && |Payload(sub).value| == 16 {
      DecodeSixteenHasShape(n + Padding);
    }
  }

  /** Decoding ignores case. */
  lemma PayloadIgnoresCase(sub: string)
    ensures Payload(ToLower(sub)) == Payload(sub)
    ensures Payload(ToUpper(sub)) == Payload(sub)
  {
    UpperOfLower(sub);
  }

  // ---------------------------------------------------------------------------------------------
  // Encoding

  /** Sixteen bytes encode as three full blocks and a one-byte block. */
  lemma EncodeSixteenBlocks(a: seq<bv8>)
    requires |a| == 16
    ensures Encode(a) == EncodeBlock(a[..5]) + EncodeBlock(a[5..10]) + EncodeBlock(a[10..15]) + EncodeBlock(a[15..])
  {
    var a1, a2, a3 := a[5..], a[10..], a[15..];
    assert a1[..5] == a[5..10] && a1[5..] == a2;
    assert a2[..5] == a[10..15] && a2[5..] == a3;
    EncodeLast(a3);
    EncodeCons(a2);
    EncodeCons(a1);
    EncodeCons(a);
  }

  /** The label characters of 16 bytes: three full blocks and two characters of the last. */
  lemma Encode26OfBlocks(g0: seq<bv8>, g1: seq<bv8>, g2: seq<bv8>, x: bv8)
    requires |g0| == |g1| == |g2| == 5
    ensures Encode26(g0 + g1 + g2 + [x]) == EncodeBlock(g0) + EncodeBlock(g1) + EncodeBlock(g2) + EncodeBlock([x])[..2]
  {
    var a := g0 + g1 + g2 + [x];
    assert a[..5] == g0 && a[5..10] == g1 && a[10..15] == g2 && a[15..] == [x];
    EncodeSixteenBlocks(a);
  }

  /** The 26 characters of 16 bytes are alphabet characters whose values are the quintets of
      the three full blocks and the first two of the last byte's block. */
  lemma EncodeSixteenValues(a: seq<bv8>)
    requires |a| == 16
    ensures AllSymbols(Encode26(a))
    ensures Values(Encode26(a)) == Quintets(a[..5]) + Quintets(a[5..10]) + Quintets(a[10..15]) + Quintets([a[15]] + Zeros(4))[..2]
  {
    var b0, b1, b2, b3 := EncodeBlock(a[..5]), EncodeBlock(a[5..10]), EncodeBlock(a[10..15]), EncodeBlock([a[15]]);
    EncodeSixteenBlocks(a);
    assert a[15..] == [a[15]];
    assert Encode26(a) == b0 + b1 + b2 + b3[..2];
    EncodeFullBlock(a[..5]);
    EncodeFullBlock(a[5..10]);
    EncodeFullBlock(a[10..15]);
    EncodeOneByteBlock(a[15]);
    ValuesAppend(b0, b1);
    ValuesAppend(b0 + b1, b2);
    ValuesAppend(b0 + b1 + b2, b3[..2]);
  }

  /** The 26 characters of 16 bytes decode to those bytes. */
  lemma EncodeSixteen(a: seq<bv8>)
    requires |a| == 16
    ensures AllSymbols(Encode26(a))
    ensures Decode26(Encode26(a)) == a
  {
    var g0, g1, g2 := a[..5], a[5..10], a[10..15];
    EncodeSixteenValues(a);
    Decode26Split(Encode26(a), Quintets(g0), Quintets(g1), Quintets(g2), Quintets([a[15]] + Zeros(4))[..2]);
    PackQuintets(g0);
    PackQuintets(g1);
    PackQuintets(g2);
    PackQuintetsOfOne(a[15]);
    assert a == g0 + (g1 + (g2 + [a[15]]));
  }

  /** Round trip: the label of 16 bytes decodes to those bytes. */
  lemma EncodeLabelRoundTrip(a: seq<bv8>)
    requires |a| == 16
    ensures Normalize(EncodeLabel(a)) == Encode26(a)
    ensures Payload(EncodeLabel(a)) == Some(a)
  {
    var s := Encode26(a);
    EncodeSixteen(a);
    UpperOfLower(s);
    assert ToUpper(s) == s by {
      forall i | 0 <= i < |s| ensures ToUpper(s)[i] == s[i] { assert IsSymbol(s[i]); }
    }
    assert forall i :: 0 <= i < |s| ==> !IsNewline(s[i]) by {
      forall i | 0 <= i < |s| ensures !IsNewline(s[i]) { assert IsSymbol(s[i]); }
    }
    StripNewlinesNoop(s);
    assert s[..LabelLength] == s;
    PayloadSixteen(EncodeLabel(a));
  }
}
