/** Base32 with the standard alphabet and '=' padding (section 6 of RFC 4648), as Go's
    `encoding/base32.StdEncoding` implements it: `Encode` is `EncodeToString` and `DecodeString`
    is the decoder, including its quirks (CR/LF are skipped, and the padding checks are exactly
    Go's, so some non-canonical inputs are accepted). */
module Base32 {
  import opened Results
  import Text

  const Pad: char := '='
  const Alphabet: string := "ABCDEFGHIJKLMNOPQRSTUVWXYZ234567"

  predicate IsSymbol(c: char) { 'A' <= c <= 'Z' || '2' <= c <= '7' }

  predicate AllSymbols(s: string) { forall i :: 0 <= i < |s| ==> IsSymbol(s[i]) }

  predicate AllPad(s: string) { forall i :: 0 <= i < |s| ==> s[i] == Pad }

  predicate IsQuintet(v: bv8) { v < 32 }

  /** The alphabet entry for a 5-bit value. */
  function Symbol(v: bv8): (c: char)
    requires IsQuintet(v)
    ensures IsSymbol(c)
  {
    if v < 26 then ('A' as int + v as int) as char else ('2' as int + v as int - 26) as char
  }

  /** The decoder's table: the 5-bit value of an alphabet character, nothing for any other. */
  function SymbolValue(c: char): (r: Option<bv8>)
    ensures r.Some? <==> IsSymbol(c)
  {
    if 'A' <= c <= 'Z' then Some((c as int - 'A' as int) as bv8)
    else if '2' <= c <= '7' then Some((c as int - '2' as int + 26) as bv8)
    else None
  }

  /** The table and the alphabet are inverse: each alphabet position reads back as itself. */
  lemma SymbolValueOfSymbol(v: bv8)
    requires IsQuintet(v)
    ensures SymbolValue(Symbol(v)) == Some(v)
    ensures Symbol(v) == Alphabet[v as int]
  {
  }

  function Values(s: string): (vs: seq<bv8>)
    requires AllSymbols(s)
    ensures |vs| == |s|
  {
    if |s| == 0 then [] else [SymbolValue(s[0]).value] + Values(s[1..])
  }

  function Zeros(n: nat): (z: seq<bv8>)
    ensures |z| == n
  {
    seq(n, _ => 0)
  }

  // ---------------------------------------------------------------------------------------------
  // Encoding

  /** The eight 5-bit groups of a 5-byte block, most significant bits first. */
  function Quintets(b: seq<bv8>): (q: seq<bv8>)
    requires |b| == 5
    ensures |q| == 8
    ensures forall i :: 0 <= i < 8 ==> IsQuintet(q[i])
  {
    [ b[0] >> 3,
      ((b[0] << 2) | (b[1] >> 6)) & 0x1F,
      (b[1] >> 1) & 0x1F,
      ((b[1] << 4) | (b[2] >> 4)) & 0x1F,
      ((b[2] << 1) | (b[3] >> 7)) & 0x1F,
      (b[3] >> 2) & 0x1F,
      ((b[3] << 3) | (b[4] >> 5)) & 0x1F,
      b[4] & 0x1F ]
  }

  /** How many alphabet characters a final block of `n` bytes yields; the rest of its
      8 characters are padding. */
  function DataSymbols(n: nat): nat
    requires 1 <= n <= 5
  {
    if n == 1 then 2 else if n == 2 then 4 else if n == 3 then 5 else if n == 4 then 7 else 8
  }

  function EncodeBlock(g: seq<bv8>): (s: string)
    requires 1 <= |g| <= 5
    ensures |s| == 8
    ensures AllSymbols(s[..DataSymbols(|g|)]) && AllPad(s[DataSymbols(|g|)..])
  {
    var q := Quintets(g + Zeros(5 - |g|));
    seq(8, i requires 0 <= i < 8 => if i < DataSymbols(|g|) then Symbol(q[i]) else Pad)
  }

  /** `StdEncoding.EncodeToString`: 8 characters per started 5-byte block. */
  function Encode(src: seq<bv8>): (s: string)
    ensures |s| == 8 * ((|src| + 4) / 5)
    decreases |src|
  {
    if |src| == 0 then []
    else if |src| <= 5 then EncodeBlock(src)
    else EncodeBlock(src[..5]) + Encode(src[5..])
  }

  /** More than five bytes: a full block, then the rest. */
  lemma EncodeCons(src: seq<bv8>)
    requires |src| > 5
    ensures Encode(src) == EncodeBlock(src[..5]) + Encode(src[5..])
  {
  }

  /** One to five bytes: a single block. */
  lemma EncodeLast(src: seq<bv8>)
    requires 1 <= |src| <= 5
    ensures Encode(src) == EncodeBlock(src)
  {
  }

  // ---------------------------------------------------------------------------------------------
  // Decoding

  /** Outcome of reading one 8-character quantum: the 5-bit values read (`dlen` of them),
      what is left of the input, and whether padding ended the input. */
  datatype Quantum = Corrupt | Quantum(vals: seq<bv8>, rest: string, end: bool)

  predicate ValidDataLength(dlen: int) { dlen == 2 || dlen == 4 || dlen == 5 || dlen == 7 }

  /** `src` began with the `8 - |dbuf|` alphabet characters that complete `vals`, and `rest` is
      what follows them. */
  predicate ReadsFull(src: string, dbuf: seq<bv8>, vals: seq<bv8>, rest: string)
    requires |dbuf| <= 8
  {
    && |vals| == 8 && |src| >= 8 - |dbuf|
    && AllSymbols(src[..8 - |dbuf|])
    && vals == dbuf + Values(src[..8 - |dbuf|])
    && rest == src[8 - |dbuf|..]
  }

  /** `src` began with the alphabet characters that complete `vals` (a valid final length),
      then a padding character, then `rest`: fewer than eight characters whose first
      `7 - |vals|` are padding. */
  predicate ReadsEnd(src: string, dbuf: seq<bv8>, vals: seq<bv8>, rest: string)
  {
    && ValidDataLength(|vals|) && |dbuf| <= |vals| < |src| + |dbuf|
    && AllSymbols(src[..|vals| - |dbuf|])
    && vals == dbuf + Values(src[..|vals| - |dbuf|])
    && src[|vals| - |dbuf|] == Pad
    && rest == src[|vals| - |dbuf| + 1..]
    && 7 - |vals| <= |rest| < 8
    && AllPad(rest[..7 - |vals|])
  }

  lemma ReadsFullCons(src: string, dbuf: seq<bv8>, v: bv8, vals: seq<bv8>, rest: string)
    requires |src| > 0 && |dbuf| < 8 && SymbolValue(src[0]) == Some(v)
    requires ReadsFull(src[1..], dbuf + [v], vals, rest)
    ensures ReadsFull(src, dbuf, vals, rest)
  {
    var n := 8 - |dbuf|;
    assert src[..n] == [src[0]] + src[1..][..n - 1];
    assert Values(src[..n]) == [v] + Values(src[1..][..n - 1]);
    assert src[1..][n - 1..] == src[n..];
  }

  lemma ReadsEndCons(src: string, dbuf: seq<bv8>, v: bv8, vals: seq<bv8>, rest: string)
    requires |src| > 0 && |dbuf| < 8 && SymbolValue(src[0]) == Some(v)
    requires ReadsEnd(src[1..], dbuf + [v], vals, rest)
    ensures ReadsEnd(src, dbuf, vals, rest)
  {
    var n := |vals| - |dbuf|;
    assert src[..n] == [src[0]] + src[1..][..n - 1];
    assert Values(src[..n]) == [v] + Values(src[1..][..n - 1]);
    assert src[1..][n - 1..] == src[n..];
    assert src[1..][n - 1] == src[n];
  }

  /** The inner loop of Go's decoder for one quantum, `dbuf` holding the values read so far.
      Padding is recognised only after two values and within the last eight characters; at
      least `7 - dlen` padding characters must follow, and `dlen` of 1, 3 or 6 is refused. */
  function ReadQuantum(src: string, dbuf: seq<bv8>): (r: Quantum)
    requires |dbuf| < 8
    ensures r.Quantum? && !r.end ==> ReadsFull(src, dbuf, r.vals, r.rest)
    ensures r.Quantum? && r.end ==> ReadsEnd(src, dbuf, r.vals, r.rest)
    decreases |src|
  {
    if |src| == 0 then Corrupt
    else
      var c := src[0];
      var rest := src[1..];
      if c == Pad && |dbuf| >= 2 && |rest| < 8 then
        if |rest| + |dbuf| < 7 then Corrupt
        else if !AllPad(rest[..7 - |dbuf|]) then Corrupt
        else if |dbuf| == 1 || |dbuf| == 3 || |dbuf| == 6 then Corrupt
        else
          assert src[..0] == [] && Values([]) == [];
          Quantum(dbuf, rest, true)
      else
        match SymbolValue(c)
        case None => Corrupt
        case Some(v) =>
          if |dbuf| == 7 then
            assert src[..1] == [c] && Values(src[..1]) == [v];
            Quantum(dbuf + [v], rest, false)
          else
            var r := ReadQuantum(rest, dbuf + [v]);
            if r.Corrupt? then r
            else if r.end then
              ReadsEndCons(src, dbuf, v, r.vals, r.rest);
              r
            else
              ReadsFullCons(src, dbuf, v, r.vals, r.rest);
              r
  }

  /** Bytes produced by a quantum of `dlen` values. */
  function PackedLength(dlen: int): nat
    requires ValidDataLength(dlen) || dlen == 8
  {
    if dlen == 2 then 1 else if dlen == 4 then 2 else if dlen == 5 then 3 else if dlen == 7 then 4 else 5
  }

  /** The `switch dlen` of Go's decoder: values are packed into up to 5 bytes, missing values
      count as zero and the low bits of the last value that do not fill a byte are dropped. */
  function Pack(vals: seq<bv8>): (b: seq<bv8>)
    requires ValidDataLength(|vals|) || |vals| == 8
    ensures |b| == PackedLength(|vals|)
  {
    var d := vals + Zeros(8 - |vals|);
    var full := [ (d[0] << 3) | (d[1] >> 2),
                  (d[1] << 6) | (d[2] << 1) | (d[3] >> 4),
                  (d[3] << 4) | (d[4] >> 1),
                  (d[4] << 7) | (d[5] << 2) | (d[6] >> 3),
                  (d[6] << 5) | d[7] ];
    full[..PackedLength(|vals|)]
  }

  /** Go's outer decoding loop: quanta are decoded until the input is used up or padding ends it
      (whatever follows the checked padding is then ignored). */
  function DecodeQuanta(src: string): (r: Option<seq<bv8>>)
    decreases |src|
  {
    if |src| == 0 then Some([])
    else
      match ReadQuantum(src, [])
      case Corrupt => None
      case Quantum(vals, rest, end) =>
        if end then Some(Pack(vals))
        else
          match DecodeQuanta(rest)
          case None => None
          case Some(more) => Some(Pack(vals) + more)
  }

  /** `StdEncoding.DecodeString`: newlines are stripped, then the quanta decoded. */
  function DecodeString(s: string): Option<seq<bv8>>
  {
    DecodeQuanta(Text.StripNewlines(s))
  }

  // ---------------------------------------------------------------------------------------------
  // Lemmas about single quanta

  /** Reading eight alphabet characters completes a quantum without ending the input. */
  lemma {:induction false} ReadFullQuantum(src: string, dbuf: seq<bv8>)
    requires |dbuf| < 8 && |src| >= 8 - |dbuf|
    requires AllSymbols(src[..8 - |dbuf|])
    ensures ReadQuantum(src, dbuf) == Quantum(dbuf + Values(src[..8 - |dbuf|]), src[8 - |dbuf|..], false)
    decreases 8 - |dbuf|
  {
    var n := 8 - |dbuf|;
    assert src[0] == src[..n][0];
    var v := SymbolValue(src[0]).value;
    assert Values(src[..n]) == [v] + Values(src[..n][1..]);
    if |dbuf| < 7 {
      ReadSymbolStep(src, dbuf, v);
      assert src[..n][1..] == src[1..][..n - 1];
      ReadFullQuantum(src[1..], dbuf + [v]);
      assert src[1..][n - 1..] == src[n..];
    } else {
      assert src[..n][1..] == [];
    }
  }

  lemma {:induction false} ValuesIndex(s: string, i: nat)
    requires AllSymbols(s) && i < |s|
    ensures Some(Values(s)[i]) == SymbolValue(s[i])
  {
    if i > 0 {
      ValuesIndex(s[1..], i - 1);
    }
  }

  /** An alphabet character before the quantum is complete is simply read. */
  lemma ReadSymbolStep(src: string, dbuf: seq<bv8>, v: bv8)
    requires |dbuf| < 7 && |src| > 0 && SymbolValue(src[0]) == Some(v)
    ensures ReadQuantum(src, dbuf) == ReadQuantum(src[1..], dbuf + [v])
  {
  }

  /** Padding after two values, with five more padding characters and fewer than eight
      characters in all after the first, ends the input. */
  lemma FinalPadStep(s2: string, v0: bv8, v1: bv8)
    requires 6 <= |s2| <= 8 && s2[0] == Pad && AllPad(s2[1..6])
    ensures ReadQuantum(s2, [v0, v1]) == Quantum([v0, v1], s2[1..], true)
  {
    var rest := s2[1..];
    assert rest[..7 - |[v0, v1]|] == s2[1..6];
    assert AllPad(rest[..7 - |[v0, v1]|]);
    assert |rest| < 8 && |rest| + |[v0, v1]| >= 7;
  }

  /** Two alphabet characters followed by padding end the input after one byte. */
  lemma ReadFinalQuantum(src: string)
    requires 8 <= |src| <= 10
    requires AllSymbols(src[..2]) && AllPad(src[2..8])
    ensures ReadQuantum(src, []) == Quantum(Values(src[..2]), src[3..], true)
  {
    assert src[0] == src[..2][0] && src[1] == src[..2][1];
    var v0 := SymbolValue(src[0]).value;
    var v1 := SymbolValue(src[1]).value;
    ReadSymbolStep(src, [], v0);
    assert src[1..][0] == src[1] && src[1..][1..] == src[2..];
    ReadSymbolStep(src[1..], [v0], v1);
    assert src[2..][0] == src[2..8][0];
    assert AllPad(src[2..][1..6]) by {
      forall i | 0 <= i < 5 ensures src[2..][1..6][i] == Pad { assert src[2..][1..6][i] == src[2..8][i + 1]; }
    }
    FinalPadStep(src[2..], v0, v1);
    assert [] + [v0] == [v0] && [v0] + [v1] == [v0, v1];
    assert src[2..][1..] == src[3..];
    assert src[..2][1..] == [src[1]];
    assert Values(src[..2]) == [v0, v1];
  }

  lemma PackQuintets(g: seq<bv8>)
    requires |g| == 5
    ensures Pack(Quintets(g)) == g
  {
  }

  lemma PackQuintetsOfOne(b: bv8)
    ensures Pack(Quintets([b] + Zeros(4))[..2]) == [b]
  {
    var q := Quintets([b] + Zeros(4));
    assert q[..2] + Zeros(6) == [q[0], q[1], 0, 0, 0, 0, 0, 0];
  }

  /** A full block encodes to eight alphabet characters whose values are its quintets. */
  lemma EncodeFullBlock(g: seq<bv8>)
    requires |g| == 5
    ensures AllSymbols(EncodeBlock(g))
    ensures Values(EncodeBlock(g)) == Quintets(g)
  {
    assert g + Zeros(0) == g;
    var s := EncodeBlock(g);
    forall i | 0 <= i < 8 ensures Values(s)[i] == Quintets(g)[i] {
      SymbolValueOfSymbol(Quintets(g)[i]);
      ValuesIndex(s, i);
    }
  }

  /** A one-byte final block encodes to two alphabet characters and six padding characters. */
  lemma EncodeOneByteBlock(b: bv8)
    ensures AllSymbols(EncodeBlock([b])[..2]) && AllPad(EncodeBlock([b])[2..])
    ensures Values(EncodeBlock([b])[..2]) == Quintets([b] + Zeros(4))[..2]
  {
    var q := Quintets([b] + Zeros(4));
    SymbolValueOfSymbol(q[0]);
    SymbolValueOfSymbol(q[1]);
  }

  // ---------------------------------------------------------------------------------------------
  // Decoding exactly 16 bytes

  /** The 16 bytes that 26 alphabet characters stand for: three full quanta and one quantum of
      two values (whose lowest two bits are dropped). */
  function Decode26(s: string): (a: seq<bv8>)
    requires |s| == 26 && AllSymbols(s)
    ensures |a| == 16
  {
    var v := Values(s);
    Pack(v[..8]) + Pack(v[8..16]) + Pack(v[16..24]) + Pack(v[24..])
  }

  /** Shape of an input that Go's decoder turns into exactly 16 bytes: 26 alphabet characters,
      then at least six padding characters, at most 34 characters in all. */
  predicate Decodes16Shape(t: string)
  {
    32 <= |t| <= 34 && AllSymbols(t[..26]) && AllPad(t[26..32])
  }

  lemma {:induction false} ValuesAppend(a: string, b: string)
    requires AllSymbols(a) && AllSymbols(b)
    ensures AllSymbols(a + b) && Values(a + b) == Values(a) + Values(b)
  {
    if |a| == 0 {
      assert a + b == b;
    } else {
      assert (a + b)[1..] == a[1..] + b;
      assert (a + b)[0] == a[0];
      assert AllSymbols(a + b) by {
        forall i | 0 <= i < |a + b| ensures IsSymbol((a + b)[i]) {
          if i < |a| { assert (a + b)[i] == a[i]; } else { assert (a + b)[i] == b[i - |a|]; }
        }
      }
      ValuesAppend(a[1..], b);
      calc {
        Values(a + b);
        [SymbolValue(a[0]).value] + Values(a[1..] + b);
        [SymbolValue(a[0]).value] + (Values(a[1..]) + Values(b));
        ([SymbolValue(a[0]).value] + Values(a[1..])) + Values(b);
      }
    }
  }

  /** The first 26 characters of a shaped input split into the four quanta Go reads. */
  lemma ShapeQuanta(t: string)
    requires Decodes16Shape(t)
    ensures AllSymbols(t[..8]) && AllSymbols(t[8..16]) && AllSymbols(t[16..24]) && AllSymbols(t[24..26])
    ensures Values(t[..26]) == Values(t[..8]) + Values(t[8..16]) + Values(t[16..24]) + Values(t[24..26])
  {
    var s := t[..26];
    AllSymbolsSlice(s, 0, 8);
    AllSymbolsSlice(s, 8, 16);
    AllSymbolsSlice(s, 16, 24);
    AllSymbolsSlice(s, 24, 26);
    assert s[0..8] == t[..8] && s[8..16] == t[8..16] && s[16..24] == t[16..24] && s[24..26] == t[24..26];
    var a, b, c, d := t[..8], t[8..16], t[16..24], t[24..26];
    assert s == a + b + c + d;
    ValuesAppend(a, b);
    ValuesAppend(a + b, c);
    ValuesAppend(a + b + c, d);
  }

  lemma AllSymbolsSlice(s: string, i: nat, j: nat)
    requires AllSymbols(s) && i <= j <= |s|
    ensures AllSymbols(s[i..j])
  {
    forall k | 0 <= k < j - i ensures IsSymbol(s[i..j][k]) {
      assert s[i..j][k] == s[i + k];
    }
  }

  /** A quantum of eight alphabet characters contributes its five bytes ahead of the rest. */
  lemma DecodeFullStep(t: string, d: seq<bv8>)
    requires |t| >= 8 && AllSymbols(t[..8]) && DecodeQuanta(t[8..]) == Some(d)
    ensures DecodeQuanta(t) == Some(Pack(Values(t[..8])) + d)
  {
    ReadFullQuantum(t, []);
  }

  /** Two alphabet characters and padding decode to one byte. */
  lemma DecodeFinalStep(t: string)
    requires 8 <= |t| <= 10 && AllSymbols(t[..2]) && AllPad(t[2..8])
    ensures DecodeQuanta(t) == Some(Pack(Values(t[..2])))
  {
    ReadFinalQuantum(t);
  }

  lemma Decode26Split(s: string, v0: seq<bv8>, v1: seq<bv8>, v2: seq<bv8>, v3: seq<bv8>)
    requires |s| == 26 && AllSymbols(s)
    requires |v0| == 8 && |v1| == 8 && |v2| == 8 && |v3| == 2
    requires Values(s) == v0 + v1 + v2 + v3
    ensures Decode26(s) == Pack(v0) + (Pack(v1) + (Pack(v2) + Pack(v3)))
  {
    Quarters(v0, v1, v2, v3);
  }

  lemma Quarters(v0: seq<bv8>, v1: seq<bv8>, v2: seq<bv8>, v3: seq<bv8>)
    requires |v0| == 8 && |v1| == 8 && |v2| == 8 && |v3| == 2
    ensures var v := v0 + v1 + v2 + v3;
            v[..8] == v0 && v[8..16] == v1 && v[16..24] == v2 && v[24..] == v3
  {
  }

  /** Every input of that shape decodes to the 16 bytes of its first 26 characters. */
  lemma DecodeOfShape(t: string)
    requires Decodes16Shape(t)
    ensures DecodeQuanta(t) == Some(Decode26(t[..26]))
  {
    ShapeQuanta(t);
    var t1, t2, t3 := t[8..], t[16..], t[24..];
    assert t1[..8] == t[8..16] && t2[..8] == t[16..24] && t3[..2] == t[24..26];
    assert t1[8..] == t2 && t2[8..] == t3;
    assert AllPad(t3[2..8]) by {
      assert forall i :: 0 <= i < 6 ==> t3[2..8][i] == t[26..32][i];
    }
    var v0, v1, v2, v3 := Values(t[..8]), Values(t[8..16]), Values(t[16..24]), Values(t[24..26]);
    DecodeFinalStep(t3);
    DecodeFullStep(t2, Pack(v3));
    DecodeFullStep(t1, Pack(v2) + Pack(v3));
    DecodeFullStep(t, Pack(v1) + (Pack(v2) + Pack(v3)));
    Decode26Split(t[..26], v0, v1, v2, v3);
  }

  /** Conversely, an input that decodes to exactly 16 bytes has that shape. */
  lemma DecodeSixteenHasShape(t: string)
    requires DecodeQuanta(t).Some? && |DecodeQuanta(t).value| == 16
    ensures Decodes16Shape(t)
  {
    var t1 := DecodeStepFull(t, 16);
    var t2 := DecodeStepFull(t1, 11);
    var t3 := DecodeStepFull(t2, 6);
    FinalQuantumOneByte(t3);
    ShapeFromQuanta(t, t1, t2, t3);
  }

  /** The quantum that ends a decode with a single byte: two symbols, then six padding
      characters, then at most two more. */
  lemma FinalQuantumOneByte(t: string)
    requires DecodeQuanta(t).Some? && |DecodeQuanta(t).value| == 1
    ensures 8 <= |t| <= 10 && AllSymbols(t[..2]) && AllPad(t[2..8])
  {
    assert |t| > 0;
    var q := ReadQuantum(t, []);
    assert q.Quantum?;
    assert q.end;
    assert |q.vals| == 2;
    assert t[3..] == q.rest;
    assert AllPad(t[2..8]) by {
      forall i | 0 <= i < 6 ensures t[2..8][i] == Pad {
        if i > 0 { assert t[2..8][i] == q.rest[..5][i - 1]; }
      }
    }
  }

  lemma ShapeFromQuanta(t: string, t1: string, t2: string, t3: string)
    requires |t| >= 8 && AllSymbols(t[..8]) && t1 == t[8..]
    requires |t1| >= 8 && AllSymbols(t1[..8]) && t2 == t1[8..]
    requires |t2| >= 8 && AllSymbols(t2[..8]) && t3 == t2[8..]
    requires 8 <= |t3| <= 10 && AllSymbols(t3[..2]) && AllPad(t3[2..8])
    ensures Decodes16Shape(t)
  {
    assert t2 == t[16..] && t3 == t[24..];
    assert AllSymbols(t[..26]) by {
      forall i | 0 <= i < 26 ensures IsSymbol(t[..26][i]) {
        if i < 8 { assert t[..26][i] == t[..8][i]; }
        else if i < 16 { assert t[..26][i] == t1[..8][i - 8]; }
        else if i < 24 { assert t[..26][i] == t2[..8][i - 16]; }
        else { assert t[..26][i] == t3[..2][i - 24]; }
      }
    }
    assert AllPad(t[26..32]) by {
      forall i | 0 <= i < 6 ensures t[26..32][i] == Pad {
        assert t[26..32][i] == t3[2..8][i];
      }
    }
  }

  /** One non-final quantum of a successful decode of `n` (more than 5) bytes. */
  lemma DecodeStepFull(t: string, n: nat) returns (rest: string)
    requires n > 5 && DecodeQuanta(t).Some? && |DecodeQuanta(t).value| == n
    ensures |t| >= 8 && AllSymbols(t[..8]) && rest == t[8..]
    ensures DecodeQuanta(rest).Some? && |DecodeQuanta(rest).value| == n - 5
  {
    assert |t| > 0;
    var q := ReadQuantum(t, []);
    assert q.Quantum? && !q.end;
    rest := q.rest;
  }
}
