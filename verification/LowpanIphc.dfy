/**
 Compression of the IPv6 header for 6LoWPAN (section 3.1 of RFC 6282), field by field, with no
 compression contexts.  The two bytes of the IPHC header say how each field is carried in-line.
 */
module LowpanIphc {
  import opened Bytes

  function B(v: bv8): byte { Byte(v) }

  // ----- Traffic class and flow label -----

  predicate Version6(v0: bv8) { v0 & 0xF0 == 0x60 }

  /** First two bits of the traffic class, and its other six. */
  function Ecn(v0: bv8): bv8 { (v0 << 4) & 0xC0 }

  function Dscp(v0: bv8, v1: bv8): bv8 { ((v0 << 4) & 0x30) | ((v1 & 0xF0) >> 4) }

  function Class(v0: bv8, v1: bv8): bv8 { Ecn(v0) | Dscp(v0, v1) }

  function Label(v1: bv8): bv8 { v1 & 0x0F }

  function EcnLabel(v0: bv8, v1: bv8): bv8 { Ecn(v0) | Label(v1) }

  predicate HasLabel(v1: bv8, v2: bv8, v3: bv8) { Label(v1) != 0 || v2 != 0 || v3 != 0 }

  function TfBits(v0: bv8, v1: bv8, v2: bv8, v3: bv8): bv8 {
    if HasLabel(v1, v2, v3) then (if Dscp(v0, v1) == 0 then 0x08 else 0x00)
    else if Ecn(v0) != 0 || Dscp(v0, v1) != 0 then 0x10 else 0x18
  }

  function TfInline(v0: bv8, v1: bv8, v2: bv8, v3: bv8): seq<byte> {
    if HasLabel(v1, v2, v3) then
      if Dscp(v0, v1) == 0 then [B(EcnLabel(v0, v1)), B(v2), B(v3)]
      else [B(Class(v0, v1)), B(Label(v1)), B(v2), B(v3)]
    else if Ecn(v0) != 0 || Dscp(v0, v1) != 0 then [B(Class(v0, v1))]
    else []
  }

  function TfLength(tf: bv8): nat {
    if tf == 0x00 then 4 else if tf == 0x08 then 3 else if tf == 0x10 then 1 else 0
  }

  /** First and second byte of the header from an in-line traffic class. */
  function First(c: bv8): bv8 { 0x60 | (c >> 4) }

  function Second(c: bv8): bv8 { (c << 4) & 0xF0 }

  function Or(a: bv8, b: bv8): bv8 { a | b }

  function FirstEcn(c: bv8): bv8 { First(c) & 0xFC }

  function TfOut(tf: bv8, s: seq<byte>): seq<byte>
    requires TfLength(tf) <= |s|
  {
    if tf == 0x00 then [B(First(s[0].bits)), B(Or(Second(s[0].bits), s[1].bits)), s[2], s[3]]
    else if tf == 0x08 then [B(FirstEcn(s[0].bits)), B(Label(s[0].bits)), s[1], s[2]]
    else if tf == 0x10 then [B(First(s[0].bits)), B(Second(s[0].bits)), B(0), B(0)]
    else [B(0x60), B(0), B(0), B(0)]
  }

  lemma TfBitwise(v0: bv8, v1: bv8)
    requires Version6(v0)
    ensures First(Class(v0, v1)) == v0 && Or(Second(Class(v0, v1)), Label(v1)) == v1
    ensures Dscp(v0, v1) == 0 ==> FirstEcn(EcnLabel(v0, v1)) == v0 && Label(EcnLabel(v0, v1)) == v1
    ensures Dscp(v0, v1) == 0 && Ecn(v0) == 0 ==> v0 == 0x60
    ensures Label(v1) == 0 ==> Second(Class(v0, v1)) == v1
    ensures Dscp(v0, v1) == 0 && Label(v1) == 0 ==> v1 == 0
  {}

  /** Version, traffic class and flow label come back, whatever follows them. */
  lemma TfRoundTrip(v0: bv8, v1: bv8, v2: bv8, v3: bv8, rest: seq<byte>)
    requires Version6(v0)
    ensures |TfInline(v0, v1, v2, v3)| == TfLength(TfBits(v0, v1, v2, v3))
    ensures TfOut(TfBits(v0, v1, v2, v3), TfInline(v0, v1, v2, v3) + rest) == [B(v0), B(v1), B(v2), B(v3)]
  {
    TfBitwise(v0, v1);
    hide Ecn, Dscp, Class, Label, EcnLabel, First, Second, Or, FirstEcn, Version6;
  }

  // ----- Next header and hop limit -----

  /** Next headers that have a compressed form of their own: hop-by-hop, routing, fragment and
      destination options, and UDP. */
  predicate Compressible(nh: bv8) {
    nh == 0 || nh == 43 || nh == 44 || nh == 60 || nh == 17
  }

  function NhBits(nh: bv8): bv8 { if Compressible(nh) then 0x04 else 0x00 }

  function NhInline(nh: byte): seq<byte> { if Compressible(nh.bits) then [] else [nh] }

  function NhLength(bits: bv8): nat { if bits == 0 then 1 else 0 }

  function NhOut(bits: bv8, s: seq<byte>): byte
    requires NhLength(bits) <= |s|
  {
    if bits == 0 then s[0] else B(0)
  }

  function HlBits(hl: bv8): bv8 {
    if hl == 1 then 0x01 else if hl == 64 then 0x02 else if hl == 255 then 0x03 else 0x00
  }

  function HlInline(hl: byte): seq<byte> { if HlBits(hl.bits) == 0 then [hl] else [] }

  function HlLength(bits: bv8): nat { if bits == 0 then 1 else 0 }

  function HlOut(bits: bv8, s: seq<byte>): byte
    requires HlLength(bits) <= |s|
  {
    if bits == 0x01 then B(1) else if bits == 0x02 then B(64) else if bits == 0x03 then B(255)
    else if bits == 0 then s[0] else B(0)
  }

  lemma NhRoundTrip(nh: byte, rest: seq<byte>)
    ensures |NhInline(nh)| == NhLength(NhBits(nh.bits))
    ensures NhOut(NhBits(nh.bits), NhInline(nh) + rest) == if Compressible(nh.bits) then B(0) else nh
  {}

  lemma HlRoundTrip(hl: byte, rest: seq<byte>)
    ensures |HlInline(hl)| == HlLength(HlBits(hl.bits)) && HlOut(HlBits(hl.bits), HlInline(hl) + rest) == hl
  {}

  // ----- Addresses -----

  type Addr = a: seq<byte> | |a| == 16 witness seq(16, _ => Byte(0))

  const LINK_PREFIX: seq<byte> := [B(0xFE), B(0x80), B(0), B(0), B(0), B(0), B(0), B(0)]

  predicate IsMulticast(a: Addr) { a[0].bits == 0xFF }

  predicate IsLinkLocal(a: Addr) { a[0].bits == 0xFE && a[1].bits & 0xC0 == 0x80 }

  predicate IsUnspecified(a: Addr) { forall i :: 0 <= i < 16 ==> a[i].bits == 0 }

  /** The bytes from `lo` up to `hi` are zero. */
  predicate ZeroIn(a: Addr, lo: nat, hi: nat) { forall i :: lo <= i < hi && i < 16 ==> a[i].bits == 0 }

  /** The interface identifier has the form of one made from a 16-bit address. */
  predicate Short(a: Addr) {
    a[10].bits == 0 && a[11].bits == 0xFF && a[12].bits == 0xFE && a[13].bits == 0
  }

  /** How much of a link-local address is elided: all if the link-layer address gives it. */
  function LinkMode(a: Addr, iid: seq<byte>): bv8 {
    if a[8..] == iid then 3 else if Short(a) then 2 else 1
  }

  function LinkLength(mode: bv8): nat {
    if mode == 1 then 8 else if mode == 2 then 2 else if mode == 3 then 0 else 16
  }

  function LinkInline(a: Addr, iid: seq<byte>): seq<byte> { a[16 - LinkLength(LinkMode(a, iid))..] }

  function LinkOut(mode: bv8, s: seq<byte>, iid: seq<byte>): (a: seq<byte>)
    requires LinkLength(mode) <= |s|
  {
    if mode == 1 then LINK_PREFIX + s[..8]
    else if mode == 2 then LINK_PREFIX + [B(0), B(0), B(0), B(0xFF), B(0xFE), B(0), s[0], s[1]]
    else if mode == 3 then LINK_PREFIX + iid
    else s[..16]
  }

  /** The link-local addresses that survive. */
  predicate LinkOk(a: Addr, iid: seq<byte>) {
    a[..8] == LINK_PREFIX && (LinkMode(a, iid) == 2 ==> a[8].bits == 0 && a[9].bits == 0)
  }

  lemma LinkRoundTrip(a: Addr, iid: seq<byte>, rest: seq<byte>)
    ensures |LinkInline(a, iid)| == LinkLength(LinkMode(a, iid))
    ensures LinkOut(LinkMode(a, iid), LinkInline(a, iid) + rest, iid) == a <==> LinkOk(a, iid)
  {
    assert a == a[..8] + a[8..];
    assert a[8..] == [a[8], a[9], a[10], a[11], a[12], a[13], a[14], a[15]];
  }

  function GroupMode(a: Addr): bv8 {
    if ZeroIn(a, 8, 11) && !ZeroIn(a, 11, 13) then 1
    else if ZeroIn(a, 8, 13) && !ZeroIn(a, 13, 15) then 2
    else if a[1].bits == 0x02 && a[14].bits == 0 && a[15].bits != 0 then 3
    else 0
  }

  function GroupLength(mode: bv8): nat {
    if mode == 1 then 6 else if mode == 2 then 4 else if mode == 3 then 1 else 16
  }

  function GroupInline(a: Addr): seq<byte> {
    var mode := GroupMode(a);
    if mode == 1 then [a[1]] + a[11..] else if mode == 2 then [a[1]] + a[13..] else if mode == 3 then [a[15]] else a
  }

  function GroupOut(mode: bv8, s: seq<byte>): seq<byte>
    requires GroupLength(mode) <= |s|
  {
    if mode == 1 then [B(0xFF), s[0]] + Zeros(9) + s[1..6]
    else if mode == 2 then [B(0xFF), s[0]] + Zeros(11) + s[1..4]
    else if mode == 3 then [B(0xFF), B(0x02)] + Zeros(13) + [s[0]]
    else s[..16]
  }

  /** The multicast addresses that survive. */
  predicate GroupOk(a: Addr) {
    var mode := GroupMode(a);
    if mode == 1 then ZeroIn(a, 2, 11) else if mode == 2 then ZeroIn(a, 2, 13) else mode == 3 ==> ZeroIn(a, 2, 15)
  }

  lemma GroupRoundTrip(a: Addr, rest: seq<byte>)
    requires IsMulticast(a)
    ensures |GroupInline(a)| == GroupLength(GroupMode(a))
    ensures GroupOut(GroupMode(a), GroupInline(a) + rest) == a <==> GroupOk(a)
  {
  }

  // ----- The two bytes of the IPHC header -----

  function PutTf(b: bv8, tf: bv8): bv8 { (b & 0x07) | 0x60 | tf }

  function PutNh(b: bv8, nh: bv8): bv8 { (b & 0xFB) | nh }

  function PutHl(b: bv8, hl: bv8): bv8 { (b & 0xFC) | hl }

  function GetTf(b: bv8): bv8 { b & 0x18 }

  function GetNh(b: bv8): bv8 { b & 0x04 }

  function GetHl(b: bv8): bv8 { b & 0x03 }

  /** The three fields of the first byte do not disturb each other. */
  lemma FirstByte(tf: bv8, nh: bv8, hl: bv8)
    requires tf == 0 || tf == 0x08 || tf == 0x10 || tf == 0x18
    requires (nh == 0 || nh == 4) && hl < 4
    ensures var b := PutHl(PutNh(PutTf(0, tf), nh), hl); GetTf(b) == tf && GetNh(b) == nh && GetHl(b) == hl && b & 0xE0 == 0x60
  {}

  /** What the link-layer address of an end gives: its interface identifier, if it has one. */
  type Link = l: Option<seq<byte>> | l.Some? ==> |l.value| == 8 witness None

  /** What `addr_iid` leaves in the address when it fails is the filler around 16-bit addresses. */
  function IidOf(l: Link): (r: seq<byte>)
    ensures |r| == 8
  {
    if l.Some? then l.value else [B(0), B(0), B(0), B(0xFF), B(0xFE), B(0), B(0), B(0)]
  }

  predicate Plain(a: Addr) { !IsMulticast(a) && !IsLinkLocal(a) }

  function OfGroup(mode: bv8): bv8 { 0x08 | mode }

  function OfSource(mode: bv8): bv8 { mode << 4 }

  function Put(b: bv8, keep: bv8, bits: bv8): bv8 { (b & keep) | bits }

  /** Sets the source bits.  An unspecified source is marked as stateful, any other address that is
      neither multicast nor link-local is carried whole. */
  function SrcByte(b: bv8, a: Addr, l: Link): bv8 {
    if IsUnspecified(a) then Put(b, 0x8F, 0x40)
    else if IsMulticast(a) then Put(b, 0xBC, OfGroup(GroupMode(a)))
    else if IsLinkLocal(a) then Put(b, 0x80, OfSource(LinkMode(a, IidOf(l))))
    else Put(b, 0x8F, 0)
  }

  /** Sets the destination bits; a destination carried whole clears the mode of the source. */
  function DstByte(b: bv8, a: Addr, l: Link): bv8 {
    if IsMulticast(a) then Put(b, 0xF8, OfGroup(GroupMode(a)))
    else if IsLinkLocal(a) then Put(b, 0xF8, LinkMode(a, IidOf(l)))
    else Put(b, 0xCB, 0)
  }

  predicate GetContext(b: bv8) { b & 0x80 != 0 }

  predicate GetStateful(b: bv8) { b & 0x40 != 0 }

  function GetSam(b: bv8): bv8 { (b & 0x30) >> 4 }

  predicate GetGroup(b: bv8) { b & 0x08 != 0 }

  function GetDam(b: bv8): bv8 { b & 0x03 }

  /** With everything else zero. */
  lemma PutGet(s: bv8, d: bv8)
    requires s < 4 && d < 4
    ensures var b := Put(Put(0, 0x80, OfSource(s)), 0xF8, OfGroup(d));
      GetSam(b) == s && GetGroup(b) && GetDam(b) == d && !GetStateful(b) && !GetContext(b)
    ensures var b := Put(Put(0, 0x80, OfSource(s)), 0xF8, d);
      GetSam(b) == s && !GetGroup(b) && GetDam(b) == d && !GetStateful(b) && !GetContext(b)
    ensures var b := Put(Put(0, 0x80, OfSource(s)), 0xCB, 0);
      GetSam(b) == 0 && !GetGroup(b) && GetDam(b) == 0 && !GetStateful(b) && !GetContext(b)
    ensures var b := Put(Put(0, 0x8F, 0), 0xF8, OfGroup(d));
      GetSam(b) == 0 && GetGroup(b) && GetDam(b) == d && !GetStateful(b) && !GetContext(b)
    ensures var b := Put(Put(0, 0x8F, 0), 0xF8, d);
      GetSam(b) == 0 && !GetGroup(b) && GetDam(b) == d && !GetStateful(b) && !GetContext(b)
    ensures var b := Put(Put(0, 0x8F, 0), 0xCB, 0);
      GetSam(b) == 0 && !GetGroup(b) && GetDam(b) == 0 && !GetStateful(b) && !GetContext(b)
    ensures var b := Put(Put(0, 0xBC, OfGroup(s)), 0xF8, OfGroup(d));
      GetSam(b) == 0 && GetGroup(b) && GetDam(b) == d && !GetStateful(b) && !GetContext(b)
    ensures var b := Put(Put(0, 0xBC, OfGroup(s)), 0xF8, d);
      GetSam(b) == 0 && GetGroup(b) && GetDam(b) == d && !GetStateful(b) && !GetContext(b)
    ensures var b := Put(Put(0, 0xBC, OfGroup(s)), 0xCB, 0);
      GetSam(b) == 0 && GetGroup(b) && GetDam(b) == s && !GetStateful(b) && !GetContext(b)
    ensures GetStateful(Put(Put(0, 0x8F, 0x40), 0xF8, OfGroup(d))) && GetStateful(Put(Put(0, 0x8F, 0x40), 0xF8, d))
    ensures GetStateful(Put(Put(0, 0x8F, 0x40), 0xCB, 0))
  {}

  lemma ModesBelow4(a: Addr, iid: seq<byte>)
    ensures 0 < LinkMode(a, iid) < 4 && GroupMode(a) < 4
  {}

  /** What the decoder reads from the second byte, for every pair of addresses. */
  lemma SecondByte(src: Addr, dst: Addr, ls: Link, ld: Link)
    ensures var b := DstByte(SrcByte(0, src, ls), dst, ld);
      && (GetStateful(b) <==> IsUnspecified(src))
      && (!IsUnspecified(src) ==>
        && !GetContext(b)
        && GetSam(b) == (if IsLinkLocal(src) && !Plain(dst) then LinkMode(src, IidOf(ls)) else 0)
        && (GetGroup(b) <==> IsMulticast(src) || IsMulticast(dst))
        && GetDam(b) == (if IsMulticast(dst) then GroupMode(dst) else if IsLinkLocal(dst) then LinkMode(dst, IidOf(ld))
                         else if IsMulticast(src) then GroupMode(src) else 0))
  {
    ModesBelow4(src, IidOf(ls));
    ModesBelow4(dst, IidOf(ld));
    var s := if IsLinkLocal(src) then LinkMode(src, IidOf(ls)) else GroupMode(src);
    var d := if IsLinkLocal(dst) then LinkMode(dst, IidOf(ld)) else GroupMode(dst);
    PutGet(s, d);
    hide Put, OfGroup, OfSource, LinkMode, GroupMode, GetSam, GetDam, GetGroup, GetStateful, GetContext, IidOf;
  }
}
