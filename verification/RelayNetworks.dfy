/** Relay networks: testing a block's endpoints decides the whole block. */
module RelayNetworks {
  import opened Text

  /** An address is 4 or 16 bytes. */
  type Address = seq<bv8>

  /** A parsed block: an address and the number of leading mask bits. */
  datatype Cidr = Cidr(address: Address, ones: nat)

  predicate WellFormed(b: Cidr) {
    (|b.address| == 4 || |b.address| == 16) && b.ones <= 8 * |b.address|
  }

  // ---------- masks ----------

  function PartialMask(n: nat): bv8
    requires n <= 8
  {
    if n == 0 then 0x00 else if n == 1 then 0x80 else if n == 2 then 0xc0 else if n == 3 then 0xe0
    else if n == 4 then 0xf0 else if n == 5 then 0xf8 else if n == 6 then 0xfc else if n == 7 then 0xfe else 0xff
  }

  function MaskByte(ones: nat, i: nat): bv8 {
    if ones >= 8 * i + 8 then 0xff else if ones <= 8 * i then 0x00 else PartialMask(ones - 8 * i)
  }

  predicate MaskLike(m: bv8) {
    m == 0x00 || m == 0x80 || m == 0xc0 || m == 0xe0 || m == 0xf0 || m == 0xf8 || m == 0xfc || m == 0xfe || m == 0xff
  }

  lemma MaskShape(ones: nat, i: nat, j: nat)
    requires i < j
    ensures MaskLike(MaskByte(ones, i)) && MaskLike(MaskByte(ones, j))
    ensures MaskByte(ones, j) != 0x00 ==> MaskByte(ones, i) == 0xff
    ensures MaskByte(ones, i) != 0xff ==> MaskByte(ones, j) == 0x00
  {
  }

  /** The network address and the last address of the block. */
  function Base(b: Cidr): Address {
    seq(|b.address|, i requires 0 <= i < |b.address| => b.address[i] & MaskByte(b.ones, i))
  }

  function Last(b: Cidr): Address {
    seq(|b.address|, i requires 0 <= i < |b.address| => (b.address[i] & MaskByte(b.ones, i)) | !MaskByte(b.ones, i))
  }

  predicate Contains(b: Cidr, a: Address) {
    |a| == |b.address| && forall i :: 0 <= i < |a| ==> a[i] & MaskByte(b.ones, i) == Base(b)[i]
  }

  // ---------- private and loopback addresses ----------

  predicate Private4(a: bv8, b: bv8) {
    a == 10 || (a == 172 && b & 0xf0 == 16) || (a == 192 && b == 168) || a == 127
  }

  /** An IPv4 address in IPv6 form. */
  predicate Mapped(a: Address)
    requires |a| == 16
  {
    (forall i :: 0 <= i < 10 ==> a[i] == 0) && a[10] == 0xff && a[11] == 0xff
  }

  predicate Loopback6(a: Address)
    requires |a| == 16
  {
    (forall i :: 0 <= i < 15 ==> a[i] == 0) && a[15] == 1
  }

  predicate PrivateOrLoopback(a: Address)
    requires |a| == 4 || |a| == 16
  {
    if |a| == 4 then Private4(a[0], a[1])
    else if Mapped(a) then Private4(a[12], a[13])
    else a[0] & 0xfe == 0xfc || Loopback6(a)
  }

  predicate Accepted(b: Cidr)
    requires WellFormed(b)
  {
    PrivateOrLoopback(b.address) && PrivateOrLoopback(Base(b)) && PrivateOrLoopback(Last(b))
  }

  /** None is a network that does not parse. */
  method ValidateNetworks(networks: seq<Option<Cidr>>) returns (ok: bool)
    requires forall n :: n in networks && n.Some? ==> WellFormed(n.value)
    ensures ok <==> forall i :: 0 <= i < |networks| ==> networks[i].Some? && Accepted(networks[i].value)
  {
    for k := 0 to |networks|
      invariant forall i :: 0 <= i < k ==> networks[i].Some? && Accepted(networks[i].value)
    {
      if networks[k].None? {
        return false;
      }
      var b := networks[k].value;
      assert networks[k] in networks;
      var last := LastAddress(b);
      if !PrivateOrLoopback(b.address) || !PrivateOrLoopback(Base(b)) || !PrivateOrLoopback(last) {
        return false;
      }
    }
    return true;
  }

  /** The copy of the network address whose host bits are set byte by byte. */
  method LastAddress(b: Cidr) returns (last: Address)
    ensures last == Last(b)
  {
    last := Base(b);
    for i := 0 to |last|
      invariant |last| == |b.address|
      invariant forall k :: 0 <= k < i ==> last[k] == Last(b)[k]
      invariant forall k :: i <= k < |last| ==> last[k] == Base(b)[k]
    {
      last := last[i := last[i] | !MaskByte(b.ones, i)];
    }
  }

  // ---------- the block is private throughout ----------

  lemma Block4(lo: bv8, lo': bv8, m: bv8, m': bv8, a: bv8, a': bv8)
    requires MaskLike(m) && MaskLike(m') && (m != 0xff ==> m' == 0x00)
    requires lo & !m == 0 && lo' & !m' == 0
    requires Private4(lo, lo') && Private4(lo | !m, lo' | !m')
    requires a & m == lo && a' & m' == lo'
    ensures Private4(a, a')
  {
  }

  lemma HostBitsClear(x: bv8, m: bv8)
    ensures (x & m) & !m == 0
  {
  }

  lemma UniqueLocal(lo: bv8, m: bv8, a: bv8)
    requires lo & !m == 0 && lo & 0xfe == 0xfc && a & m == lo
    requires (lo | !m) & 0xfe == 0xfc
    ensures a & 0xfe == 0xfc
  {
  }

  lemma NotZero(lo: bv8, m: bv8)
    requires lo & 0xfe == 0xfc
    ensures lo | !m != 0
  {
  }

  lemma FullMask(x: bv8, m: bv8)
    requires MaskLike(m) && x & !m == 0 && x & 1 == 1
    ensures m == 0xff
  {
  }

  lemma Fixed(x: bv8, m: bv8)
    requires m == 0xff
    ensures x & m == x && x | !m == x
  {
  }

  /** Bytes under a full mask are the same in the whole block. */
  lemma {:induction false} FixedPrefix(b: Cidr, a: Address, k: nat)
    requires WellFormed(b) && Contains(b, a) && k < |a| && MaskByte(b.ones, k) == 0xff
    ensures forall i :: 0 <= i <= k ==> a[i] == Base(b)[i] && Last(b)[i] == Base(b)[i]
  {
    forall i | 0 <= i <= k
      ensures a[i] == Base(b)[i] && Last(b)[i] == Base(b)[i]
    {
      if i < k { MaskShape(b.ones, i, k); }
      Fixed(a[i], MaskByte(b.ones, i));
      Fixed(Base(b)[i], MaskByte(b.ones, i));
    }
  }

  lemma Endpoints(b: Cidr, k: nat)
    requires k < |b.address|
    ensures Base(b)[k] & !MaskByte(b.ones, k) == 0 && Last(b)[k] == Base(b)[k] | !MaskByte(b.ones, k)
  {
    HostBitsClear(b.address[k], MaskByte(b.ones, k));
  }

  lemma {:induction false} Ipv4Bytes(b: Cidr, a: Address, k: nat)
    requires WellFormed(b) && Contains(b, a) && k + 1 < |a|
    requires Private4(Base(b)[k], Base(b)[k + 1]) && Private4(Last(b)[k], Last(b)[k + 1])
    ensures Private4(a[k], a[k + 1])
  {
    MaskShape(b.ones, k, k + 1);
    Endpoints(b, k);
    Endpoints(b, k + 1);
    Block4(Base(b)[k], Base(b)[k + 1], MaskByte(b.ones, k), MaskByte(b.ones, k + 1), a[k], a[k + 1]);
  }

  lemma {:induction false} MappedBlock(b: Cidr, a: Address)
    requires WellFormed(b) && |b.address| == 16 && Contains(b, a) && Mapped(Base(b))
    requires PrivateOrLoopback(Base(b)) && PrivateOrLoopback(Last(b))
    ensures PrivateOrLoopback(a)
  {
    MaskShape(b.ones, 11, 12);
    Endpoints(b, 11);
    FullMask(Base(b)[11], MaskByte(b.ones, 11));
    FixedPrefix(b, a, 11);
    Ipv4Bytes(b, a, 12);
  }

  lemma {:induction false} LoopbackBlock(b: Cidr, a: Address)
    requires WellFormed(b) && |b.address| == 16 && Contains(b, a) && Loopback6(Base(b))
    ensures PrivateOrLoopback(a)
  {
    MaskShape(b.ones, 14, 15);
    Endpoints(b, 15);
    FullMask(Base(b)[15], MaskByte(b.ones, 15));
    FixedPrefix(b, a, 15);
    assert a == Base(b);
  }

  lemma {:induction false} UniqueLocalBlock(b: Cidr, a: Address)
    requires WellFormed(b) && |b.address| == 16 && Contains(b, a) && Base(b)[0] & 0xfe == 0xfc
    requires PrivateOrLoopback(Last(b))
    ensures PrivateOrLoopback(a)
  {
    Endpoints(b, 0);
    NotZero(Base(b)[0], MaskByte(b.ones, 0));
    UniqueLocal(Base(b)[0], MaskByte(b.ones, 0), a[0]);
  }

  /** Every address of an accepted block is private or loopback, for IPv4 blocks
      and for IPv6 blocks, mapped ones included. */
  lemma {:induction false} AcceptedBlockIsPrivate(b: Cidr, a: Address)
    requires WellFormed(b) && Accepted(b) && Contains(b, a)
    ensures PrivateOrLoopback(a)
  {
    if |b.address| == 4 {
      Ipv4Bytes(b, a, 0);
    } else if Mapped(Base(b)) {
      MappedBlock(b, a);
    } else if Loopback6(Base(b)) {
      LoopbackBlock(b, a);
    } else {
      UniqueLocalBlock(b, a);
    }
  }

  /** The endpoints are needed: a block may contain its own private address and
      still reach outside. */
  lemma AddressAloneIsNotEnough()
    ensures var b := Cidr([10, 1, 2, 3], 7);
            && WellFormed(b) && PrivateOrLoopback(b.address) && Contains(b, [11, 0, 0, 0])
                  && !PrivateOrLoopback([11, 0, 0, 0])
            && !Accepted(b)
  {
    var b := Cidr([10, 1, 2, 3], 7);
    assert Base(b) == [10, 0, 0, 0];
    assert Last(b)[0] == 11;
  }

  lemma UnderMask(base: bv8, last: bv8, m: bv8)
    requires base & !m == 0 && last == base | !m
    ensures base & m == base && last & m == base
  {
  }

  lemma {:induction false} ByteInside(b: Cidr, k: nat)
    requires k < |b.address|
    ensures Base(b)[k] & MaskByte(b.ones, k) == Base(b)[k] && Last(b)[k] & MaskByte(b.ones, k) == Base(b)[k]
  {
    Endpoints(b, k);
    UnderMask(Base(b)[k], Last(b)[k], MaskByte(b.ones, k));
  }

  /** `a` agrees with the network address under the mask. */
  lemma {:induction false} InsideBytewise(b: Cidr, a: Address)
    requires |a| == |b.address| && forall k :: 0 <= k < |a| ==> a[k] & MaskByte(b.ones, k) == Base(b)[k]
    ensures Contains(b, a)
  {
  }

  lemma {:induction false} EndpointsInside(b: Cidr)
    ensures Contains(b, b.address) && Contains(b, Base(b)) && Contains(b, Last(b))
  {
    forall k: nat | k < |b.address|
      ensures b.address[k] & MaskByte(b.ones, k) == Base(b)[k]
      ensures Base(b)[k] & MaskByte(b.ones, k) == Base(b)[k]
      ensures Last(b)[k] & MaskByte(b.ones, k) == Base(b)[k]
    {
      ByteInside(b, k);
    }
    InsideBytewise(b, b.address);
    InsideBytewise(b, Base(b));
    InsideBytewise(b, Last(b));
  }

  /** So a block is accepted exactly when all of its addresses are. */
  lemma {:induction false} AcceptedExactlyWhenPrivate(b: Cidr)
    requires WellFormed(b)
    ensures Accepted(b) <==> forall a :: Contains(b, a) ==> PrivateOrLoopback(a)
  {
    if Accepted(b) {
      forall a | Contains(b, a)
        ensures PrivateOrLoopback(a)
      {
        AcceptedBlockIsPrivate(b, a);
      }
    } else {
      EndpointsInside(b);
    }
  }
}
