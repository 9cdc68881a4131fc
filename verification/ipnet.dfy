/** Addresses and subnets as Go's `net` package holds them: an `IP` is a byte slice (16 bytes for
    every address this daemon decodes) and an `IPNet` a network number with a byte mask.
    `Contains` follows `net.IPNet.Contains`, including its treatment of IPv4-mapped addresses.
    Network numbers and masks are kept as integer bytes so that Go's `&` is the arithmetic `And`
    of the `Bitwise` module; addresses arrive as the decoder's `bv8` bytes and are widened. */
module IPNet {
  import opened Results
  import opened Bitwise

  /** A 128-bit address as its 16 bytes. */
  type Address = a: seq<bv8> | |a| == 16 witness seq(16, _ => 0 as bv8)

  /** The integer values of a byte string. */
  function Widen(a: seq<bv8>): (w: seq<Byte>)
    ensures |w| == |a| && forall i :: 0 <= i < |a| ==> w[i] == a[i] as int
  {
    seq(|a|, i requires 0 <= i < |a| => a[i] as int)
  }

  datatype IPNet = IPNet(ip: seq<Byte>, mask: seq<Byte>)

  function ZeroBytes(n: nat): (z: seq<Byte>)
    ensures |z| == n && forall i :: 0 <= i < n ==> z[i] == 0
  {
    seq(n, _ => 0)
  }

  /** The address is of the form ::ffff:a.b.c.d (section 2.5.5.2 of RFC 4291). */
  predicate IsV4Mapped(ip: seq<Byte>)
  {
    |ip| == 16 && ip[..10] == ZeroBytes(10) && ip[10] == 0xff && ip[11] == 0xff
  }

  /** `IP.To4`: the 4-byte form of an IPv4 or IPv4-mapped address, nothing otherwise. */
  function To4(ip: seq<Byte>): (r: Option<seq<Byte>>)
    ensures r.Some? <==> |ip| == 4 || IsV4Mapped(ip)
    ensures r.Some? ==> |r.value| == 4 && r.value == ip[|ip| - 4..]
  {
    if |ip| == 4 then Some(ip)
    else if IsV4Mapped(ip) then Some(ip[12..])
    else None
  }

  /** `networkNumberAndMask`: the network number in its shortest form and a mask of the same
      length; nothing when the two cannot be matched up. */
  function NetworkNumberAndMask(n: IPNet): (r: Option<(seq<Byte>, seq<Byte>)>)
    ensures r.Some? ==> |r.value.0| == |r.value.1| && (|r.value.0| == 4 || |r.value.0| == 16)
  {
    var ip := match To4(n.ip) case Some(x) => x case None => n.ip;
    if |ip| != 4 && |ip| != 16 then None
    else if |n.mask| == 4 then (if |ip| != 4 then None else Some((ip, n.mask)))
    else if |n.mask| == 16 then (if |ip| == 4 then Some((ip, n.mask[12..])) else Some((ip, n.mask)))
    else None
  }

  /** `x` and `y` agree on every bit `m` sets. */
  predicate MaskedEqual(x: seq<Byte>, y: seq<Byte>, m: seq<Byte>)
    requires |x| == |y| == |m|
  {
    forall i :: 0 <= i < |m| ==> AndByte(x[i], m[i]) == AndByte(y[i], m[i])
  }

  /** `IPNet.Contains`: an IPv4-mapped address is compared in its 4-byte form, so it can only
      match a network whose number is IPv4 (or IPv4-mapped), and every other address only a
      16-byte network. */
  function Contains(n: IPNet, a: Address): bool
  {
    match NetworkNumberAndMask(n)
    case None => false
    case Some((nn, m)) =>
      var w := Widen(a);
      var ip := match To4(w) case Some(x) => x case None => w;
      |ip| == |nn| && MaskedEqual(nn, ip, m)
  }

  /** `net.CIDRMask(ones, 8 * bytes)`: the first `ones` bits set. */
  function CIDRMask(ones: nat, bytes: nat): (m: seq<Byte>)
    ensures |m| == bytes
  {
    seq(bytes, i => MaskByte(ones - 8 * i))
  }

  /** `IP.Mask` for an address and mask of the same length. */
  function ApplyMask(ip: seq<Byte>, m: seq<Byte>): (r: seq<Byte>)
    requires |ip| == |m|
    ensures |r| == |ip|
  {
    seq(|ip|, i requires 0 <= i < |ip| => AndByte(ip[i], m[i]))
  }

  /** The network `base/ones` as `net.ParseCIDR` builds it from an IPv6 literal. */
  function CIDR6(base: Address, ones: nat): IPNet
    requires ones <= 128
  {
    var m := CIDRMask(ones, 16);
    IPNet(ApplyMask(Widen(base), m), m)
  }

  /** The first `p` bits of `a` and `b` agree: the meaning of `b/p` containing `a` in the prefix
      notation of section 2.3 of RFC 4291. */
  predicate SamePrefix(a: Address, b: Address, p: nat)
    requires p <= 128
  {
    PrefixBitsAgree(Widen(a), Widen(b), p)
  }

  /** For a network built from an address that is not IPv4-mapped, containment is masked
      equality with the base address, byte by byte. */
  lemma ContainsByBytes(base: Address, ones: nat, a: Address)
    requires ones <= 128
    requires !IsV4Mapped(Widen(a)) && !IsV4Mapped(CIDR6(base, ones).ip)
    ensures Contains(CIDR6(base, ones), a) <==> MaskedPrefix(Widen(a), Widen(base), ones)
  {
    var n := CIDR6(base, ones);
    var m := CIDRMask(ones, 16);
    assert NetworkNumberAndMask(n) == Some((n.ip, m));
    forall i | 0 <= i < 16
      ensures AndByte(n.ip[i], m[i]) == AndByte(Widen(base)[i], m[i])
    {
      AndByteIdempotent(Widen(base)[i], m[i]);
    }
  }

  /** Byte-wise masked equality under the mask of `ones` bits. */
  predicate MaskedPrefix(x: seq<Byte>, y: seq<Byte>, ones: nat)
    requires |x| == |y| == 16
  {
    forall i :: 0 <= i < 16 ==> AndByte(x[i], MaskByte(ones - 8 * i)) == AndByte(y[i], MaskByte(ones - 8 * i))
  }

  /** The first `p` bits of two 16-byte strings agree, bit `k` being bit `k % 8` (from the most
      significant end) of byte `k / 8`. */
  predicate PrefixBitsAgree(x: seq<Byte>, y: seq<Byte>, p: nat)
    requires |x| == |y| == 16 && p <= 128
  {
    forall k :: 0 <= k < p ==> Bit(x[k / 8], k % 8) == Bit(y[k / 8], k % 8)
  }

  /** Masking every byte with the mask of `ones` bits compares exactly the first `ones` bits. */
  lemma MaskedPrefixIsPrefix(x: seq<Byte>, y: seq<Byte>, ones: nat)
    requires |x| == |y| == 16 && ones <= 128
    ensures MaskedPrefix(x, y, ones) <==> PrefixBitsAgree(x, y, ones)
  {
    if MaskedPrefix(x, y, ones) {
      forall k | 0 <= k < ones ensures Bit(x[k / 8], k % 8) == Bit(y[k / 8], k % 8) {
        MaskedEqualIffBits(x[k / 8], y[k / 8], ones - 8 * (k / 8));
      }
    } else {
      var i :| 0 <= i < 16 && AndByte(x[i], MaskByte(ones - 8 * i)) != AndByte(y[i], MaskByte(ones - 8 * i));
      MaskedEqualIffBits(x[i], y[i], ones - 8 * i);
      var j :| 0 <= j < 8 && j < ones - 8 * i && Bit(x[i], j) != Bit(y[i], j);
      assert (8 * i + j) / 8 == i && (8 * i + j) % 8 == j;
      assert Bit(x[(8 * i + j) / 8], (8 * i + j) % 8) != Bit(y[(8 * i + j) / 8], (8 * i + j) % 8);
    }
  }

  /** For addresses that are not IPv4-mapped, containment in an IPv6 prefix network is prefix-bit
      equality. */
  lemma ContainsIsPrefix(base: Address, ones: nat, a: Address)
    requires ones <= 128
    requires !IsV4Mapped(Widen(a)) && !IsV4Mapped(CIDR6(base, ones).ip)
    ensures Contains(CIDR6(base, ones), a) <==> SamePrefix(a, base, ones)
  {
    ContainsByBytes(base, ones, a);
    MaskedPrefixIsPrefix(Widen(a), Widen(base), ones);
  }

  /** `::/0`, the default trusted subnet of the single-subnet revisions. */
  function AnySubnet(): IPNet
  {
    CIDR6(seq(16, _ => 0 as bv8), 0)
  }

  /** `::/0` contains every address except the IPv4-mapped ones, which `Contains` compares in
      their 4-byte form against the 16-byte network number. */
  lemma AnySubnetContains(a: Address)
    ensures Contains(AnySubnet(), a) <==> !IsV4Mapped(Widen(a))
  {
    var n := AnySubnet();
    var m := CIDRMask(0, 16);
    assert forall i :: 0 <= i < 16 ==> m[i] == 0 by {
      MaskByteEnds(0);
      forall i | 0 <= i < 16 ensures m[i] == 0 {
        MaskByteEnds(0 - 8 * i);
      }
    }
    assert n.ip == ZeroBytes(16) by {
      forall i | 0 <= i < 16 ensures n.ip[i] == 0 {
        AndByteZero(0);
      }
    }
    assert !IsV4Mapped(n.ip);
    assert NetworkNumberAndMask(n) == Some((n.ip, m));
  }
}
