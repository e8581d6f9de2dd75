/**
 The sender of 6LoWPAN datagrams: compression, and fragmentation of what then does not fit the link.
 The code asks whether the compressed IPv6 header fits the link, which is not enough.
 */
module LowpanSend {
  import opened Bytes
  import opened LowpanIphc
  import opened LowpanHeader
  import opened LowpanFrame
  import opened LowpanFrag

  /** Compression never makes the header longer. */
  lemma NotLonger(h: Ip6, ls: Link, ld: Link)
    ensures 2 <= |Compressed(h, ls, ld)| <= 40
  {
    CompressedTail(h, ls, ld, []);
    InlineLengths(Src(h), ls);
    InlineLengths(Dst(h), ld);
    FixedLengthsInline(h, ls, ld);
    hide FieldInline, Byte0, Byte1, AddrInline, LinkMode, GroupMode, IidOf;
    assert |InlineUpto(h, ls, ld, 1)| <= 4;
    assert |InlineUpto(h, ls, ld, 2)| <= 4;
    assert |InlineUpto(h, ls, ld, 3)| <= 5;
    assert |InlineUpto(h, ls, ld, 4)| <= 6;
    assert |InlineUpto(h, ls, ld, 5)| <= 22;
  }

  lemma FixedLengthsInline(h: Ip6, ls: Link, ld: Link)
    ensures |FieldInline(h, ls, ld, 0)| <= 4 && |FieldInline(h, ls, ld, 1)| == 0 && |FieldInline(h, ls, ld, 2)| <= 1 && |FieldInline(h, ls, ld, 3)| <= 1
    ensures FieldInline(h, ls, ld, 4) == AddrInline(Src(h), ls) && FieldInline(h, ls, ld, 5) == AddrInline(Dst(h), ld)
  {
    hide Ecn, Dscp, Label, AddrInline;
  }

  // ----- When the header stays in one piece -----

  /** The IPv6 header alone stays whole exactly if it fits the link together with a fragment header. */
  lemma PlainHeaderFits(h: Ip6, ls: Link, ld: Link, avail: nat)
    ensures var c := |Compressed(h, ls, ld)|;
      c <= 40 && (HeaderFits(avail, 40 - c, c) <==> c + FRAG1_SIZE <= avail)
  {
    NotLonger(h, ls, ld);
    hide Compressed;
  }

  lemma UdpLengths(u: Udp)
    ensures |UdpInline(u)| == 4 || |UdpInline(u)| == 6 || |UdpInline(u)| == 7
  {
    InlineBytes(u);
    hide UdpInline, UdpMode, UdpDispatch;
  }

  /** With a UDP header the code still counts the IPv6 header only; that stays whole exactly if both fit the
      link together with a fragment header. */
  lemma UdpHeaderFits(h: Ip6, ls: Link, ld: Link, u: Udp, avail: nat)
    ensures var c, uc := |Compressed(h, ls, ld)|, |UdpInline(u)|;
      c + uc <= 48 && (HeaderFits(avail, 48 - c - uc, c) <==> c + uc + FRAG1_SIZE <= avail)
  {
    NotLonger(h, ls, ld);
    UdpLengths(u);
    hide Compressed, UdpInline;
  }

  function LongAddr(): Addr { LINK_PREFIX + [B(1), B(2), B(3), B(4), B(5), B(6), B(7), B(8)] }

  function ShortAddr(): Addr { LINK_PREFIX + [B(0), B(0), B(0), B(0xFF), B(0xFE), B(0), B(0), B(1)] }

  lemma AddrLengths()
    ensures |AddrInline(LongAddr(), Some(Zeros(8)))| == 8 && |AddrInline(ShortAddr(), Some(Zeros(8)))| == 2
  {
    var a, b, z := LongAddr(), ShortAddr(), Zeros(8);
    assert a[8..][0] == B(1) != z[0] && b[8..][3] == B(0xFF) != z[3];
    InlineLengths(a, Some(z));
    InlineLengths(b, Some(z));
    hide AddrInline;
  }

  function NibblePorts(): Udp { [B(0xF0), B(0xB1), B(0xF0), B(0xB2), B(0), B(8), B(0), B(0)] }

  lemma NibbleLength()
    ensures |UdpInline(NibblePorts())| == 4
  {
    InlineBytes(NibblePorts());
    hide UdpInline, UdpDispatch;
  }

  /** A header that fits the link and passes the test of the code, but is cut after 8 of its 12 bytes. */
  lemma HeaderCut() returns (h: Ip6, link: Link, u: Udp)
    ensures h[6].bits == UDP && |Compressed(h, link, link)| == 12 && |UdpInline(u)| == 4
    ensures var avail, diff := 16, 48 - 12 - 4;
      12 <= avail && !HeaderFits(avail, diff, 12) && 8 * FirstUnits(avail, diff) - diff == 8
  {
    var fixed := [B(0x60), B(0), B(0), B(0), B(0), B(0), B(17), B(64)];
    hide Compressed, AddrInline, FieldInline, UdpInline, LongAddr, ShortAddr, NibblePorts;
    h, link, u := fixed + LongAddr() + ShortAddr(), Some(Zeros(8)), NibblePorts();
    assert Src(h) == LongAddr() && Dst(h) == ShortAddr() && h[..4] == fixed[..4] && h[6] == fixed[6] && h[7] == fixed[7];
    AddrLengths();
    FixedShort(h, link);
    InlineSum(h, link, link);
    NibbleLength();
  }

  lemma FixedShort(h: Ip6, l: Link)
    requires h[..4] == [B(0x60), B(0), B(0), B(0)] && h[6] == B(17) && h[7] == B(64)
    ensures FieldInline(h, l, l, 0) == [] && FieldInline(h, l, l, 2) == [] && FieldInline(h, l, l, 3) == []
  {
    assert h[0] == h[..4][0] && h[1] == h[..4][1] && h[2] == h[..4][2] && h[3] == h[..4][3];
  }

  lemma InlineSum(h: Ip6, ls: Link, ld: Link)
    ensures |Compressed(h, ls, ld)| == 2 + |FieldInline(h, ls, ld, 0)| + |FieldInline(h, ls, ld, 2)| +
      |FieldInline(h, ls, ld, 3)| + |AddrInline(Src(h), ls)| + |AddrInline(Dst(h), ld)|
  {
    FixedLengthsInline(h, ls, ld);
    hide FieldInline, AddrInline, Byte0, Byte1;
    assert |InlineUpto(h, ls, ld, 1)| == |FieldInline(h, ls, ld, 0)|;
    assert |InlineUpto(h, ls, ld, 2)| == |InlineUpto(h, ls, ld, 1)|;
    assert |InlineUpto(h, ls, ld, 3)| == |InlineUpto(h, ls, ld, 2)| + |FieldInline(h, ls, ld, 2)|;
    assert |InlineUpto(h, ls, ld, 4)| == |InlineUpto(h, ls, ld, 3)| + |FieldInline(h, ls, ld, 3)|;
    assert |InlineUpto(h, ls, ld, 5)| == |InlineUpto(h, ls, ld, 4)| + |FieldInline(h, ls, ld, 4)|;
  }

  // ----- Sending -----

  lemma CutsCount(cuts: seq<nat>, len: nat, diff: nat)
    requires Cuts(cuts, len, diff)
    ensures |cuts| >= 3
  {}

  /** Compresses and fragments a datagram; whatever lies behind the header, the cut does not
      touch the header. */
  method SendDatagram(h: Ip6, payload: seq<byte>, tag: nat, avail: nat, ls: Link, ld: Link)
    returns (sent: Option<seq<seq<byte>>>, ghost cuts: seq<nat>)
    requires 40 + |payload| < 2048 && tag < 65536 && 13 <= avail
    requires var c := |Compressed(h, ls, ld)|; c + FRAG1_SIZE <= avail < c + |payload|
    ensures sent.None? <==> Uncompressible(h, ls, ld)
    ensures var f := PlainFrame(h, ls, ld, payload);
      |f| <= 40 + |payload| && (sent.Some? ==>
      && |cuts| >= 3 && Cuts(cuts, |f|, 40 + |payload| - |f|) && |Compressed(h, ls, ld)| <= cuts[1]
      && |sent.value| == |cuts| - 1
      && forall i :: 0 <= i < |sent.value| ==>
        sent.value[i] == FragmentAt(f, 40 + |payload|, tag, cuts, i) && |sent.value[i]| <= avail)
  {
    hide Compressed, Uncompressible, FragmentAt, Cuts;
    NotLonger(h, ls, ld);
    PlainHeaderFits(h, ls, ld, avail);
    var header := CompressIphc(h, ls, ld);
    cuts := [];
    if header.None? { return None, cuts; }
    var f := header.value + payload;
    var frags;
    frags, cuts := SendFragments(f, 40 + |payload|, tag, avail, |header.value|);
    CutsCount(cuts, |f|, 40 + |payload| - |f|);
    sent := Some(frags);
  }

  /** The first cut behind the IPv6 header of a UDP datagram lies behind the UDP header too: in the
      datagram it is a multiple of eight and more than 40. */
  lemma CutBehindUdp(cuts: seq<nat>, len: nat, c: nat, uc: nat)
    requires 4 <= uc <= 7 && c + uc <= 48 && Cuts(cuts, len, 48 - c - uc) && c <= cuts[1]
    ensures c + uc <= cuts[1]
  {
    assert (cuts[1] + (48 - c - uc)) % 8 == 0;
  }

  /** Compresses and fragments a UDP datagram, with the header length that the code passes on: both headers
      are in the first fragment. */
  method SendUdp(h: Ip6, u: Udp, data: seq<byte>, tag: nat, avail: nat, ls: Link, ld: Link)
    returns (sent: Option<seq<seq<byte>>>, ghost cuts: seq<nat>)
    requires 48 + |data| < 2048 && tag < 65536 && 13 <= avail
    requires var c, uc := |Compressed(h, ls, ld)|, |UdpInline(u)|; c + uc + FRAG1_SIZE <= avail < c + uc + |data|
    ensures sent.None? <==> Uncompressible(h, ls, ld)
    ensures var f := UdpFrame(h, ls, ld, u, data);
      |f| <= 48 + |data| && (sent.Some? ==>
      && |cuts| >= 3 && Cuts(cuts, |f|, 48 + |data| - |f|) && |Compressed(h, ls, ld)| + |UdpInline(u)| <= cuts[1]
      && |sent.value| == |cuts| - 1
      && forall i :: 0 <= i < |sent.value| ==>
        sent.value[i] == FragmentAt(f, 48 + |data|, tag, cuts, i) && |sent.value[i]| <= avail)
  {
    hide Compressed, Uncompressible, FragmentAt, Cuts, UdpInline;
    NotLonger(h, ls, ld);
    UdpHeaderFits(h, ls, ld, u, avail);
    UdpLengths(u);
    var header := CompressIphc(h, ls, ld);
    cuts := [];
    if header.None? { return None, cuts; }
    var f := header.value + (UdpInline(u) + data);
    var frags;
    frags, cuts := SendFragments(f, 48 + |data|, tag, avail, |header.value|);
    CutsCount(cuts, |f|, 48 + |data| - |f|);
    CutBehindUdp(cuts, |f|, |header.value|, |UdpInline(u)|);
    sent := Some(frags);
  }
}
