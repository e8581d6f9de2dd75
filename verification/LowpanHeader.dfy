/**
 The whole IPv6 header through the IPHC compressor and back: the loops over the field table, and
 exactly which headers come back.
 */
module LowpanHeader {
  import opened Bytes
  import opened LowpanIphc
  import opened Sequences

  const FIELDS := 6

  type Ip6 = h: seq<byte> | |h| == 40 witness seq(40, _ => Byte(0))

  function Src(h: Ip6): Addr { h[8..24] }

  function Dst(h: Ip6): Addr { h[24..40] }

  // ----- Compression -----

  function AddrInline(a: Addr, l: Link): seq<byte> {
    if IsMulticast(a) then GroupInline(a) else if IsLinkLocal(a) then LinkInline(a, IidOf(l)) else a
  }

  /** What field `i` of the table leaves in-line. */
  function FieldInline(h: Ip6, ls: Link, ld: Link, i: nat): seq<byte> {
    if i == 0 then TfInline(h[0].bits, h[1].bits, h[2].bits, h[3].bits)
    else if i == 2 then NhInline(h[6])
    else if i == 3 then HlInline(h[7])
    else if i == 4 then AddrInline(Src(h), ls)
    else if i == 5 then AddrInline(Dst(h), ld)
    else []
  }

  function InlineUpto(h: Ip6, ls: Link, ld: Link, i: nat): seq<byte> {
    if i == 0 then [] else InlineUpto(h, ls, ld, i - 1) + FieldInline(h, ls, ld, i - 1)
  }

  function Byte0(h: Ip6): bv8 {
    PutHl(PutNh(PutTf(0, TfBits(h[0].bits, h[1].bits, h[2].bits, h[3].bits)), NhBits(h[6].bits)), HlBits(h[7].bits))
  }

  function Byte1(h: Ip6, ls: Link, ld: Link): bv8 {
    DstByte(SrcByte(0, Src(h), ls), Dst(h), ld)
  }

  /** A link-local address needs to know whether the link-layer address gives it. */
  predicate Uncompressible(h: Ip6, ls: Link, ld: Link) {
    (IsLinkLocal(Src(h)) && ls.None?) || (IsLinkLocal(Dst(h)) && ld.None?)
  }

  function Compressed(h: Ip6, ls: Link, ld: Link): seq<byte> {
    [Byte(Byte0(h)), Byte(Byte1(h, ls, ld))] + InlineUpto(h, ls, ld, FIELDS)
  }

  /** `compressor_iphc`. */
  method CompressIphc(h: Ip6, ls: Link, ld: Link) returns (out: Option<seq<byte>>)
    ensures out.None? <==> Uncompressible(h, ls, ld)
    ensures out.Some? ==> out.value == Compressed(h, ls, ld)
  {
    hide PutTf, PutNh, PutHl, SrcByte, DstByte, TfBits, NhBits, HlBits, TfInline, NhInline, HlInline, AddrInline, IsLinkLocal;
    var b0: bv8, b1: bv8, comp: seq<byte> := 0, 0, [];
    var i := 0;
    while i < FIELDS
      invariant 0 <= i <= FIELDS && comp == InlineUpto(h, ls, ld, i)
      invariant i == 0 ==> b0 == 0
      invariant 1 <= i <= 2 ==> b0 == PutTf(0, TfBits(h[0].bits, h[1].bits, h[2].bits, h[3].bits))
      invariant i == 3 ==> b0 == PutNh(PutTf(0, TfBits(h[0].bits, h[1].bits, h[2].bits, h[3].bits)), NhBits(h[6].bits))
      invariant i >= 4 ==> b0 == Byte0(h)
      invariant i <= 4 ==> b1 == 0
      invariant i >= 5 ==> !(IsLinkLocal(Src(h)) && ls.None?)
      invariant i == 5 ==> b1 == SrcByte(0, Src(h), ls)
      invariant i == 6 ==> b1 == Byte1(h, ls, ld) && !(IsLinkLocal(Dst(h)) && ld.None?)
    {
      if i == 0 {
        b0 := PutTf(b0, TfBits(h[0].bits, h[1].bits, h[2].bits, h[3].bits));
      } else if i == 2 {
        b0 := PutNh(b0, NhBits(h[6].bits));
      } else if i == 3 {
        b0 := PutHl(b0, HlBits(h[7].bits));
      } else if i == 4 {
        if IsLinkLocal(Src(h)) && ls.None? { return None; }
        b1 := SrcByte(b1, Src(h), ls);
      } else if i == 5 {
        if IsLinkLocal(Dst(h)) && ld.None? { return None; }
        b1 := DstByte(b1, Dst(h), ld);
      }
      comp := comp + FieldInline(h, ls, ld, i);
      i := i + 1;
    }
    out := Some([Byte(b0), Byte(b1)] + comp);
  }

  // ----- Decompression -----

  function DstLength(b1: bv8): nat {
    if GetGroup(b1) then GroupLength(GetDam(b1)) else LinkLength(GetDam(b1))
  }

  function DstOut(b1: bv8, s: seq<byte>, l: Link): seq<byte>
    requires DstLength(b1) <= |s|
  {
    if GetGroup(b1) then GroupOut(GetDam(b1), s) else LinkOut(GetDam(b1), s, IidOf(l))
  }

  /** In-line bytes that field `i` of the table takes. */
  function FieldLength(b0: bv8, b1: bv8, i: nat): nat {
    if i == 0 then TfLength(GetTf(b0))
    else if i == 2 then NhLength(GetNh(b0))
    else if i == 3 then HlLength(GetHl(b0))
    else if i == 4 then LinkLength(GetSam(b1))
    else if i == 5 then DstLength(b1)
    else 0
  }

  function FieldOut(b0: bv8, b1: bv8, i: nat, s: seq<byte>, ls: Link, ld: Link): seq<byte>
    requires FieldLength(b0, b1, i) <= |s|
  {
    if i == 0 then TfOut(GetTf(b0), s)
    else if i == 1 then [Byte(0), Byte(0)]
    else if i == 2 then [NhOut(GetNh(b0), s)]
    else if i == 3 then [HlOut(GetHl(b0), s)]
    else if i == 4 then LinkOut(GetSam(b1), s, IidOf(ls))
    else if i == 5 then DstOut(b1, s, ld)
    else []
  }

  /** Where the in-line bytes of field `i` begin. */
  function At(b0: bv8, b1: bv8, i: nat): nat {
    if i == 0 then (if GetContext(b1) then 3 else 2) else At(b0, b1, i - 1) + FieldLength(b0, b1, i - 1)
  }

  function HeaderUpto(s: seq<byte>, ls: Link, ld: Link, i: nat): seq<byte>
    requires |s| >= 2 && At(s[0].bits, s[1].bits, i) <= |s|
  {
    if i == 0 then []
    else
      var from := At(s[0].bits, s[1].bits, i - 1);
      HeaderUpto(s, ls, ld, i - 1) + FieldOut(s[0].bits, s[1].bits, i - 1, s[from..], ls, ld)
  }

  /** The frame holds all in-line bytes and needs no context. */
  predicate Decodes(s: seq<byte>) {
    |s| >= 2 && !GetStateful(s[1].bits) && At(s[0].bits, s[1].bits, FIELDS) <= |s|
  }

  lemma {:induction false} AtMonotone(b0: bv8, b1: bv8, i: nat, j: nat)
    requires i <= j
    ensures At(b0, b1, i) <= At(b0, b1, j)
  {
    if i < j { AtMonotone(b0, b1, i, j - 1); }
  }

  /** `decompressor_iphc`, and how much of the frame it has taken. */
  method DecompressIphc(s: seq<byte>, ls: Link, ld: Link) returns (out: Option<seq<byte>>, taken: nat)
    requires |s| >= 2 && At(s[0].bits, s[1].bits, FIELDS) <= |s|
    ensures out.Some? <==> Decodes(s)
    ensures out.Some? ==> out.value == HeaderUpto(s, ls, ld, FIELDS) && taken == At(s[0].bits, s[1].bits, FIELDS)
  {
    hide FieldLength, FieldOut, GetStateful, GetContext;
    var b0, b1 := s[0].bits, s[1].bits;
    taken := if GetContext(b1) then 3 else 2;
    AtMonotone(b0, b1, 0, FIELDS);
    var ori: seq<byte> := [];
    var i := 0;
    while i < FIELDS
      invariant 0 <= i <= FIELDS && taken == At(b0, b1, i) <= |s|
      invariant ori == HeaderUpto(s, ls, ld, i)
      invariant i > 4 ==> !GetStateful(b1)
    {
      AtMonotone(b0, b1, i + 1, FIELDS);
      if i >= 4 && GetStateful(b1) { return None, taken; }
      ori := ori + FieldOut(b0, b1, i, s[taken..], ls, ld);
      taken := taken + FieldLength(b0, b1, i);
      i := i + 1;
    }
    out := Some(ori);
  }

  // ----- Round trip -----

  /** The header without its payload length and without a next header that has a compressed form. */
  function Bare(h: Ip6): (r: seq<byte>)
    ensures |r| == 40
  {
    h[..4] + [Byte(0), Byte(0), if Compressible(h[6].bits) then Byte(0) else h[6], h[7]] + Src(h) + Dst(h)
  }

  predicate AddrOk(a: Addr, l: Link) {
    if IsMulticast(a) then GroupOk(a) else IsLinkLocal(a) ==> LinkOk(a, IidOf(l))
  }

  /** The headers that come back.  The source may not be unspecified; a link-local source needs a
      destination that is not carried whole, since that would clear the mode of the source; and the
      shapes that `LinkOk` and `GroupOk` describe must be met. */
  predicate Restorable(src: Addr, dst: Addr, ls: Link, ld: Link) {
    && !IsUnspecified(src) && AddrOk(dst, ld)
    && (IsMulticast(src) ==> GroupMode(src) == 0 && !IsLinkLocal(dst))
    && (IsLinkLocal(src) ==> LinkOk(src, IidOf(ls)) && !Plain(dst))
  }

  /** The in-line bytes from field `i` on, followed by the rest of the frame. */
  function Tail(h: Ip6, ls: Link, ld: Link, i: nat, rest: seq<byte>): seq<byte>
    requires i <= FIELDS
    decreases FIELDS - i
  {
    if i == FIELDS then rest else FieldInline(h, ls, ld, i) + Tail(h, ls, ld, i + 1, rest)
  }

  lemma {:induction false} InlineTail(h: Ip6, ls: Link, ld: Link, i: nat, rest: seq<byte>)
    requires i <= FIELDS
    ensures InlineUpto(h, ls, ld, FIELDS) + rest == InlineUpto(h, ls, ld, i) + Tail(h, ls, ld, i, rest)
    decreases FIELDS - i
  {
    hide FieldInline;
    if i < FIELDS {
      InlineTail(h, ls, ld, i + 1, rest);
      Assoc(InlineUpto(h, ls, ld, i), FieldInline(h, ls, ld, i), Tail(h, ls, ld, i + 1, rest));
    }
  }

  lemma CompressedTail(h: Ip6, ls: Link, ld: Link, rest: seq<byte>)
    ensures var s := Compressed(h, ls, ld) + rest;
      |s| >= 2 && s[0].bits == Byte0(h) && s[1].bits == Byte1(h, ls, ld) && s[2..] == Tail(h, ls, ld, 0, rest)
  {
    InlineTail(h, ls, ld, 0, rest);
    assert InlineUpto(h, ls, ld, 0) + Tail(h, ls, ld, 0, rest) == Tail(h, ls, ld, 0, rest);
    hide InlineUpto, Tail, Byte0, Byte1;
    Assoc([Byte(Byte0(h)), Byte(Byte1(h, ls, ld))], InlineUpto(h, ls, ld, FIELDS), rest);
  }

  lemma DropMore<T>(s: seq<T>, n: nat, f: seq<T>, tail: seq<T>)
    requires n <= |s| && s[n..] == f + tail
    ensures n + |f| <= |s| && s[n + |f|..] == tail
  {
    assert s[n + |f|..] == s[n..][|f|..];
  }

  /** A field that takes its in-line bytes leaves the next field at the start of its own. */
  lemma OneField(s: seq<byte>, ls: Link, ld: Link, i: nat, f: seq<byte>, tail: seq<byte>)
    requires |s| >= 2 && At(s[0].bits, s[1].bits, i) <= |s| && s[At(s[0].bits, s[1].bits, i)..] == f + tail
    requires |f| == FieldLength(s[0].bits, s[1].bits, i)
    ensures At(s[0].bits, s[1].bits, i + 1) == At(s[0].bits, s[1].bits, i) + |f| <= |s|
    ensures s[At(s[0].bits, s[1].bits, i + 1)..] == tail
    ensures HeaderUpto(s, ls, ld, i + 1) == HeaderUpto(s, ls, ld, i) + FieldOut(s[0].bits, s[1].bits, i, f + tail, ls, ld)
  {
    hide FieldLength, FieldOut;
    DropMore(s, At(s[0].bits, s[1].bits, i), f, tail);
  }

  /** Where field `i` begins in the IPv6 header. */
  function Off(i: nat): nat {
    if i == 0 then 0 else if i == 1 then 4 else if i == 2 then 6 else if i == 3 then 7 else if i == 4 then 8 else if i == 5 then 24 else 40
  }

  lemma BareParts(h: Ip6)
    ensures Bare(h)[0..4] == [B(h[0].bits), B(h[1].bits), B(h[2].bits), B(h[3].bits)] && Bare(h)[4..6] == [Byte(0), Byte(0)]
    ensures Bare(h)[6..7] == [if Compressible(h[6].bits) then Byte(0) else h[6]] && Bare(h)[7..8] == [h[7]]
    ensures Bare(h)[8..24] == Src(h) && Bare(h)[24..40] == Dst(h)
  {}

  /** A fixed field takes what it left in-line and comes back. */
  lemma FieldBack(h: Ip6, b1: bv8, ls: Link, ld: Link, i: nat, tail: seq<byte>)
    requires i < 4 && Version6(h[0].bits)
    ensures |FieldInline(h, ls, ld, i)| == FieldLength(Byte0(h), b1, i)
    ensures FieldOut(Byte0(h), b1, i, FieldInline(h, ls, ld, i) + tail, ls, ld) == Bare(h)[Off(i)..Off(i + 1)]
  {
    FirstByte(TfBits(h[0].bits, h[1].bits, h[2].bits, h[3].bits), NhBits(h[6].bits), HlBits(h[7].bits));
    hide PutTf, PutNh, PutHl, GetTf, GetNh, GetHl, TfBits, NhBits, HlBits, TfInline, NhInline, HlInline, TfOut, NhOut, HlOut;
    BareParts(h);
    hide TfLength, NhLength, HlLength, Bare, Compressible;
    if i == 0 {
      TfRoundTrip(h[0].bits, h[1].bits, h[2].bits, h[3].bits, tail);
    } else if i == 2 {
      NhRoundTrip(h[6], tail);
    } else if i == 3 {
      HlRoundTrip(h[7], tail);
    }
  }

  /** Decoding has put the first `i` fields back and stands where the compressor put field `i`. */
  ghost predicate Reached(h: Ip6, s: seq<byte>, ls: Link, ld: Link, rest: seq<byte>, i: nat)
    requires i <= FIELDS && |s| >= 2
  {
    && At(s[0].bits, s[1].bits, i) <= |s| && s[At(s[0].bits, s[1].bits, i)..] == Tail(h, ls, ld, i, rest)
    && HeaderUpto(s, ls, ld, i) == Bare(h)[..Off(i)]
  }

  lemma ReachedNext(h: Ip6, s: seq<byte>, ls: Link, ld: Link, rest: seq<byte>, i: nat)
    requires i < FIELDS && |s| >= 2 && Reached(h, s, ls, ld, rest, i)
    requires |FieldInline(h, ls, ld, i)| == FieldLength(s[0].bits, s[1].bits, i)
    requires FieldOut(s[0].bits, s[1].bits, i, FieldInline(h, ls, ld, i) + Tail(h, ls, ld, i + 1, rest), ls, ld) == Bare(h)[Off(i)..Off(i + 1)]
    ensures Reached(h, s, ls, ld, rest, i + 1)
  {
    hide FieldInline, FieldLength, FieldOut, HeaderUpto, At, Bare;
    var tail := Tail(h, ls, ld, i + 1, rest);
    assert Tail(h, ls, ld, i, rest) == FieldInline(h, ls, ld, i) + tail;
    hide Tail;
    OneField(s, ls, ld, i, FieldInline(h, ls, ld, i), tail);
    Slices(Bare(h), Off(i), Off(i + 1));
  }

  lemma Slices<T>(s: seq<T>, m: nat, n: nat)
    requires m <= n <= |s|
    ensures s[..m] + s[m..n] == s[..n]
  {}

  lemma ReachedStart(h: Ip6, s: seq<byte>, ls: Link, ld: Link, rest: seq<byte>)
    requires |s| >= 2 && !GetContext(s[1].bits) && s[2..] == Tail(h, ls, ld, 0, rest)
    ensures Reached(h, s, ls, ld, rest, 0)
  {
    hide Tail, FieldLength, FieldOut, Bare;
  }

  /** The fixed fields come back, and each next field starts where the compressor put it. */
  lemma {:induction false} FixedFields(h: Ip6, s: seq<byte>, ls: Link, ld: Link, rest: seq<byte>, i: nat)
    requires Version6(h[0].bits) && i <= 4 && |s| >= 2
    requires s[0].bits == Byte0(h) && !GetContext(s[1].bits) && s[2..] == Tail(h, ls, ld, 0, rest)
    ensures Reached(h, s, ls, ld, rest, i)
  {
    hide Byte0, FieldInline, FieldLength, FieldOut, Bare, Reached, Tail;
    if i == 0 {
      ReachedStart(h, s, ls, ld, rest);
    } else {
      FixedFields(h, s, ls, ld, rest, i - 1);
      FieldBack(h, s[1].bits, ls, ld, i - 1, Tail(h, ls, ld, i, rest));
      ReachedNext(h, s, ls, ld, rest, i - 1);
    }
  }

  // ----- The addresses -----

  lemma InlineLengths(a: Addr, l: Link)
    ensures |AddrInline(a, l)| == if IsMulticast(a) then GroupLength(GroupMode(a)) else if IsLinkLocal(a) then LinkLength(LinkMode(a, IidOf(l))) else 16
  {
    if IsMulticast(a) { GroupRoundTrip(a, []); }
    LinkRoundTrip(a, IidOf(l), []);
    hide GroupOut, LinkOut, GroupMode, LinkMode, GroupOk, LinkOk, GroupInline, LinkInline, IidOf;
  }

  /** The decoder takes as many bytes as the compressor left for the two addresses exactly when it
      does so for each, or when a shortened multicast source meets a destination carried whole. */
  lemma AddressLengths(src: Addr, dst: Addr, ls: Link, ld: Link)
    requires !IsUnspecified(src)
    ensures var b1 := DstByte(SrcByte(0, src, ls), dst, ld); var each := LinkLength(GetSam(b1)) == |AddrInline(src, ls)|;
      && (each && DstLength(b1) == |AddrInline(dst, ld)| <==>
            (IsLinkLocal(src) ==> !Plain(dst)) && (IsMulticast(src) ==> GroupMode(src) == 0 && !IsLinkLocal(dst)))
      && (LinkLength(GetSam(b1)) + DstLength(b1) == |AddrInline(src, ls)| + |AddrInline(dst, ld)| ==>
            each || (IsMulticast(src) && Plain(dst) && GetGroup(b1) && GetDam(b1) == GroupMode(src) != 0))
  {
    SecondByte(src, dst, ls, ld);
    InlineLengths(src, ls);
    InlineLengths(dst, ld);
    ModesBelow4(src, IidOf(ls));
    ModesBelow4(dst, IidOf(ld));
    hide AddrInline, SrcByte, DstByte, GroupMode, LinkMode, IidOf, GetSam, GetDam, GetGroup, GetStateful, GetContext, IsUnspecified;
  }

  lemma SrcBack(src: Addr, dst: Addr, ls: Link, ld: Link, tail: seq<byte>)
    requires !IsUnspecified(src)
    requires LinkLength(GetSam(DstByte(SrcByte(0, src, ls), dst, ld))) == |AddrInline(src, ls)|
    ensures LinkOut(GetSam(DstByte(SrcByte(0, src, ls), dst, ld)), AddrInline(src, ls) + tail, IidOf(ls)) == src
      <==> (IsLinkLocal(src) ==> LinkOk(src, IidOf(ls)))
  {
    SecondByte(src, dst, ls, ld);
    ModesBelow4(src, IidOf(ls));
    InlineLengths(src, ls);
    LinkRoundTrip(src, IidOf(ls), tail);
    assert GroupMode(src) == 0 ==> GroupInline(src) == src;
    assert (src + tail)[..16] == src;
    hide SrcByte, DstByte, GroupMode, LinkMode, IidOf, GetSam, GetDam, GetGroup, GetStateful, GetContext, IsUnspecified, LinkOk, GroupInline, LinkInline;
  }

  lemma DstBack(src: Addr, dst: Addr, ls: Link, ld: Link, tail: seq<byte>)
    requires !IsUnspecified(src)
    requires DstLength(DstByte(SrcByte(0, src, ls), dst, ld)) == |AddrInline(dst, ld)|
    ensures DstOut(DstByte(SrcByte(0, src, ls), dst, ld), AddrInline(dst, ld) + tail, ld) == dst <==> AddrOk(dst, ld)
  {
    SecondByte(src, dst, ls, ld);
    ModesBelow4(src, IidOf(ls));
    ModesBelow4(dst, IidOf(ld));
    InlineLengths(dst, ld);
    LinkRoundTrip(dst, IidOf(ld), tail);
    if IsMulticast(dst) { GroupRoundTrip(dst, tail); }
    assert (dst + tail)[..16] == dst;
    hide SrcByte, DstByte, GroupMode, LinkMode, IidOf, GetSam, GetDam, GetGroup, GetStateful, GetContext, IsUnspecified, LinkOk, GroupOk, GroupInline, LinkInline;
  }

  // ----- Which headers come back -----

  /** Decompression succeeds, takes exactly the compressed header and gives back the header. */
  ghost predicate ComesBack(h: Ip6, ls: Link, ld: Link, rest: seq<byte>) {
    var s := Compressed(h, ls, ld) + rest;
    && Decodes(s)
    && At(s[0].bits, s[1].bits, FIELDS) == |Compressed(h, ls, ld)|
    && HeaderUpto(s, ls, ld, FIELDS) == Bare(h)
  }

  lemma OutLengths(b0: bv8, b1: bv8, s: seq<byte>, ls: Link, ld: Link, i: nat)
    requires 4 <= i <= 5 && FieldLength(b0, b1, i) <= |s|
    ensures |FieldOut(b0, b1, i, s, ls, ld)| == 16
  {
    hide IidOf;
  }

  lemma PartsEqual<T>(a: seq<T>, b: seq<T>, c: seq<T>, a': seq<T>, b': seq<T>, c': seq<T>)
    requires |a| == |a'| && |b| == |b'| && |c| == |c'|
    ensures a + b + c == a' + b' + c' <==> a == a' && b == b' && c == c'
  {
    if a + b + c == a' + b' + c' {
      assert a == (a + b + c)[..|a|] && b == (a + b + c)[|a|..|a| + |b|] && c == (a + b + c)[|a| + |b|..];
      assert a' == (a' + b' + c')[..|a|] && b' == (a' + b' + c')[|a|..|a| + |b|] && c' == (a' + b' + c')[|a| + |b|..];
    }
  }

  /** The decoder stands at the addresses. */
  ghost predicate AtAddresses(h: Ip6, s: seq<byte>, ls: Link, ld: Link, rest: seq<byte>) {
    && |s| >= 2 && s[1].bits == Byte1(h, ls, ld) && !GetContext(s[1].bits)
    && At(s[0].bits, s[1].bits, 4) <= |s|
    && s[At(s[0].bits, s[1].bits, 4)..] == AddrInline(Src(h), ls) + (AddrInline(Dst(h), ld) + rest)
    && HeaderUpto(s, ls, ld, 4) == Bare(h)[..8]
  }

  lemma ReachesAddresses(h: Ip6, ls: Link, ld: Link, rest: seq<byte>)
    requires Version6(h[0].bits) && !IsUnspecified(Src(h))
    ensures var s := Compressed(h, ls, ld) + rest; AtAddresses(h, s, ls, ld, rest) && !GetStateful(s[1].bits)
  {
    var s := Compressed(h, ls, ld) + rest;
    CompressedTail(h, ls, ld, rest);
    SecondByte(Src(h), Dst(h), ls, ld);
    hide Compressed, InlineUpto, Byte0, AddrInline, SrcByte, DstByte, GetContext, GetStateful, IsUnspecified, Bare, Version6;
    FixedFields(h, s, ls, ld, rest, 4);
    assert Tail(h, ls, ld, 4, rest) == AddrInline(Src(h), ls) + (AddrInline(Dst(h), ld) + rest);
  }

  lemma AddressFields(b0: bv8, b1: bv8, s: seq<byte>, ls: Link, ld: Link)
    ensures FieldLength(b0, b1, 4) == LinkLength(GetSam(b1)) && FieldLength(b0, b1, 5) == DstLength(b1)
    ensures LinkLength(GetSam(b1)) <= |s| ==> FieldOut(b0, b1, 4, s, ls, ld) == LinkOut(GetSam(b1), s, IidOf(ls))
    ensures DstLength(b1) <= |s| ==> FieldOut(b0, b1, 5, s, ls, ld) == DstOut(b1, s, ld)
  {
    hide LinkLength, DstLength, LinkOut, DstOut, GetSam, IidOf;
  }

  lemma TwoFields(s: seq<byte>, ls: Link, ld: Link, f4: seq<byte>, f5: seq<byte>, rest: seq<byte>)
    requires |s| >= 2 && At(s[0].bits, s[1].bits, 4) <= |s| && s[At(s[0].bits, s[1].bits, 4)..] == f4 + (f5 + rest)
    requires |f4| == FieldLength(s[0].bits, s[1].bits, 4) && |f5| == FieldLength(s[0].bits, s[1].bits, 5)
    ensures At(s[0].bits, s[1].bits, 6) == |s| - |rest|
    ensures HeaderUpto(s, ls, ld, 6) == HeaderUpto(s, ls, ld, 4) + FieldOut(s[0].bits, s[1].bits, 4, f4 + (f5 + rest), ls, ld) +
      FieldOut(s[0].bits, s[1].bits, 5, f5 + rest, ls, ld)
  {
    hide FieldLength, FieldOut, At, HeaderUpto;
    OneField(s, ls, ld, 4, f4, f5 + rest);
    OneField(s, ls, ld, 5, f5, rest);
  }

  lemma MatchedAddresses(h: Ip6, s: seq<byte>, ls: Link, ld: Link, rest: seq<byte>)
    requires AtAddresses(h, s, ls, ld, rest)
    requires LinkLength(GetSam(s[1].bits)) == |AddrInline(Src(h), ls)| && DstLength(s[1].bits) == |AddrInline(Dst(h), ld)|
    ensures At(s[0].bits, s[1].bits, 6) == |s| - |rest|
    ensures HeaderUpto(s, ls, ld, 6) == Bare(h)[..8] +
      LinkOut(GetSam(s[1].bits), AddrInline(Src(h), ls) + (AddrInline(Dst(h), ld) + rest), IidOf(ls)) +
      DstOut(s[1].bits, AddrInline(Dst(h), ld) + rest, ld)
  {
    var b0, b1, f4, f5 := s[0].bits, s[1].bits, AddrInline(Src(h), ls), AddrInline(Dst(h), ld);
    AddressFields(b0, b1, f4 + (f5 + rest), ls, ld);
    AddressFields(b0, b1, f5 + rest, ls, ld);
    hide *;
    TwoFields(s, ls, ld, f4, f5, rest);
  }

  lemma BareSplit(h: Ip6)
    ensures Bare(h) == Bare(h)[..8] + Src(h) + Dst(h)
  {}

  /** When the decoder takes each address where the compressor left it, the header comes back if and
      only if the forms of both addresses allow it. */
  lemma MatchedBack(h: Ip6, ls: Link, ld: Link, rest: seq<byte>)
    requires Version6(h[0].bits) && !IsUnspecified(Src(h))
    requires var b1 := Byte1(h, ls, ld);
      LinkLength(GetSam(b1)) == |AddrInline(Src(h), ls)| && DstLength(b1) == |AddrInline(Dst(h), ld)|
    ensures ComesBack(h, ls, ld, rest) <==> (IsLinkLocal(Src(h)) ==> LinkOk(Src(h), IidOf(ls))) && AddrOk(Dst(h), ld)
  {
    var s := Compressed(h, ls, ld) + rest;
    var src, dst := AddrInline(Src(h), ls), AddrInline(Dst(h), ld);
    ReachesAddresses(h, ls, ld, rest);
    MatchedAddresses(h, s, ls, ld, rest);
    SrcBack(Src(h), Dst(h), ls, ld, dst + rest);
    DstBack(Src(h), Dst(h), ls, ld, rest);
    BareSplit(h);
    var b0, b1 := s[0].bits, s[1].bits;
    var src' := LinkOut(GetSam(b1), src + (dst + rest), IidOf(ls));
    var dst' := DstOut(b1, dst + rest, ld);
    assert |src'| == 16 by { OutLengths(b0, b1, src + (dst + rest), ls, ld, 4); }
    assert |dst'| == 16 by { OutLengths(b0, b1, dst + rest, ls, ld, 5); }
    hide Compressed, AddrInline, Byte1, LinkOut, DstOut, LinkLength, DstLength, GetSam, GetContext, GetStateful, At, HeaderUpto, Bare;
    hide IsUnspecified, IsLinkLocal, LinkOk, AddrOk, IidOf, AtAddresses, Version6;
    PartsEqual(Bare(h)[..8], src', dst', Bare(h)[..8], Src(h), Dst(h));
  }

  /** A shortened multicast source before a destination carried whole: the decoder takes the
      destination for a multicast address. */
  lemma TakenForMulticast(h: Ip6, ls: Link, ld: Link, rest: seq<byte>)
    requires Version6(h[0].bits) && !IsUnspecified(Src(h)) && Plain(Dst(h))
    requires GetGroup(Byte1(h, ls, ld)) && 0 < GetDam(Byte1(h, ls, ld))
    ensures !ComesBack(h, ls, ld, rest)
  {
    var s := Compressed(h, ls, ld) + rest;
    ReachesAddresses(h, ls, ld, rest);
    if Decodes(s) {
      var b0, b1 := s[0].bits, s[1].bits;
      assert b1 == Byte1(h, ls, ld);
      AtMonotone(b0, b1, 5, 6);
      LastField(s, ls, ld);
      var s5 := s[At(b0, b1, 5)..];
      assert DstLength(b1) <= |s5|;
      AddressFields(b0, b1, s5, ls, ld);
      GroupFirst(GetDam(b1), s5);
      assert DstOut(b1, s5, ld)[0].bits == 0xFF;
      BareParts(h);
      assert Bare(h)[24] == Bare(h)[24..40][0] == Dst(h)[0];
    }
  }

  lemma LastField(s: seq<byte>, ls: Link, ld: Link)
    requires Decodes(s) && |HeaderUpto(s, ls, ld, 4)| == 8
    ensures var b0, b1 := s[0].bits, s[1].bits;
      && At(b0, b1, 5) + FieldLength(b0, b1, 5) == At(b0, b1, 6)
      && |HeaderUpto(s, ls, ld, 6)| == 40
      && HeaderUpto(s, ls, ld, 6)[24..] == FieldOut(b0, b1, 5, s[At(b0, b1, 5)..], ls, ld)
  {
    var b0, b1 := s[0].bits, s[1].bits;
    AtMonotone(b0, b1, 5, 6);
    hide FieldOut, FieldLength, GetStateful, GetContext;
    var from4, from5 := At(b0, b1, 4), At(b0, b1, 5);
    assert HeaderUpto(s, ls, ld, 5) == HeaderUpto(s, ls, ld, 4) + FieldOut(b0, b1, 4, s[from4..], ls, ld);
    assert HeaderUpto(s, ls, ld, 6) == HeaderUpto(s, ls, ld, 5) + FieldOut(b0, b1, 5, s[from5..], ls, ld);
    OutLengths(b0, b1, s[from4..], ls, ld, 4);
    OutLengths(b0, b1, s[from5..], ls, ld, 5);
  }

  lemma GroupFirst(mode: bv8, s: seq<byte>)
    requires 0 < mode < 4 && GroupLength(mode) <= |s|
    ensures GroupOut(mode, s)[0].bits == 0xFF
  {}

  /** MAIN RESULT.  Whatever follows it in the frame, a compressed header is taken exactly and comes
      back, but for its payload length and an elided next header, if and only if its addresses are
      restorable. */
  lemma IphcRoundTrip(h: Ip6, ls: Link, ld: Link, rest: seq<byte>)
    requires Version6(h[0].bits)
    ensures ComesBack(h, ls, ld, rest) <==> Restorable(Src(h), Dst(h), ls, ld)
  {
    if IsUnspecified(Src(h)) {
      CompressedTail(h, ls, ld, rest);
      SecondByte(Src(h), Dst(h), ls, ld);
      hide SrcByte, DstByte, Compressed, GetStateful, IsUnspecified;
    } else {
      var b1 := Byte1(h, ls, ld);
      AddressLengths(Src(h), Dst(h), ls, ld);
      if LinkLength(GetSam(b1)) == |AddrInline(Src(h), ls)| && DstLength(b1) == |AddrInline(Dst(h), ld)| {
        MatchedBack(h, ls, ld, rest);
        hide ComesBack, AddrInline, SrcByte, DstByte, LinkOk, AddrOk, GetSam, GetDam, GetGroup, IsUnspecified, GroupMode;
      } else {
        NotMatched(h, ls, ld, rest);
        hide ComesBack, AddrInline, SrcByte, DstByte, LinkOk, AddrOk, GetSam, GetDam, GetGroup, IsUnspecified, GroupMode;
      }
    }
  }

  lemma NotMatched(h: Ip6, ls: Link, ld: Link, rest: seq<byte>)
    requires Version6(h[0].bits) && !IsUnspecified(Src(h))
    requires var b1 := Byte1(h, ls, ld);
      !(LinkLength(GetSam(b1)) == |AddrInline(Src(h), ls)| && DstLength(b1) == |AddrInline(Dst(h), ld)|)
    ensures !ComesBack(h, ls, ld, rest)
  {
    var s := Compressed(h, ls, ld) + rest;
    ReachesAddresses(h, ls, ld, rest);
    AddressLengths(Src(h), Dst(h), ls, ld);
    var b0, b1 := s[0].bits, s[1].bits;
    if GetGroup(b1) && 0 < GetDam(b1) && Plain(Dst(h)) {
      TakenForMulticast(h, ls, ld, rest);
    } else {
      assert At(b0, b1, 6) == At(b0, b1, 4) + LinkLength(GetSam(b1)) + DstLength(b1);
      hide Compressed, AddrInline, LinkLength, DstLength, GetSam, GetGroup, GetDam, IsUnspecified, GroupMode, Byte1, HeaderUpto, At, GetContext, Version6;
    }
  }
}
