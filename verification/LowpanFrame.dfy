/**
 Whole frames through 6LoWPAN compression and back: the IPv6 header, a UDP header if there is one
 (section 4.3 of RFC 6282), and the payload.
 */
module LowpanFrame {
  import opened Bytes
  import opened LowpanIphc
  import opened LowpanHeader
  import opened LowpanDefrag

  const UDP_HEADER := 8
  const UDP: bv8 := 17

  // ----- The UDP header -----

  type Udp = u: seq<byte> | |u| == 8 witness seq(8, _ => Byte(0))

  /** The port lies in 0xF0B0 to 0xF0BF. */
  predicate Nibble(hi: bv8, lo: bv8) { hi == 0xF0 && lo & 0xF0 == 0xB0 }

  function UdpMode(u: Udp): bv8 {
    if Nibble(u[0].bits, u[1].bits) && Nibble(u[2].bits, u[3].bits) then 3
    else if u[0].bits == 0xF0 then 2
    else if u[2].bits == 0xF0 then 1
    else 0
  }

  function UdpDispatch(mode: bv8): bv8 { 0xF0 | mode }

  function PackPorts(lo0: bv8, lo1: bv8): bv8 { (lo0 << 4) | (lo1 & 0x0F) }

  function UdpInline(u: Udp): seq<byte> {
    var mode := UdpMode(u);
    [B(UdpDispatch(mode))] +
    (if mode == 3 then [B(PackPorts(u[1].bits, u[3].bits))]
     else if mode == 2 then [u[1], u[2], u[3]]
     else if mode == 1 then [u[0], u[1], u[3]]
     else [u[0], u[1], u[2], u[3]]) +
    [u[6], u[7]]
  }

  function UdpPortsLength(mode: bv8): nat { if mode == 3 then 2 else if mode == 2 || mode == 1 then 4 else 5 }

  function UdpModeOf(b: bv8): bv8 { b & 0x03 }

  predicate HasChecksum(b: bv8) { b & 0x04 == 0 }

  function UdpTaken(b: bv8): nat { UdpPortsLength(UdpModeOf(b)) + if HasChecksum(b) then 2 else 0 }

  function SourcePort(c: bv8): bv8 { 0xB0 | (c >> 4) }

  /** The destination port is read from the whole byte, source nibble included. */
  function DestinationPort(c: bv8): bv8 { 0xB0 | c }

  function PortsOut(mode: bv8, s: seq<byte>): seq<byte>
    requires UdpPortsLength(mode) <= |s|
  {
    if mode == 3 then [B(0xF0), B(SourcePort(s[1].bits)), B(0xF0), B(DestinationPort(s[1].bits))]
    else if mode == 2 then [B(0xF0), s[1], s[2], s[3]]
    else if mode == 1 then [s[1], s[2], B(0xF0), s[3]]
    else s[1..5]
  }

  /** The header restored from frame bytes `s`, its length counting all that follows. */
  function UdpOut(s: seq<byte>): seq<byte>
    requires |s| >= 1 && UdpTaken(s[0].bits) <= |s|
  {
    var n := UdpPortsLength(UdpModeOf(s[0].bits));
    var len := |s| - UdpTaken(s[0].bits) + UDP_HEADER;
    PortsOut(UdpModeOf(s[0].bits), s) + [High(len), Low(len)] + if HasChecksum(s[0].bits) then s[n..n + 2] else [B(0), B(0)]
  }

  /** Both ports travel as nibbles and the one of the source port has bit 2 set. */
  predicate PortsClash(u: Udp) { UdpMode(u) == 3 && u[1].bits & 0x04 != 0 }

  function WithLength(u: Udp, len: nat): Udp { u[4 := High(len)][5 := Low(len)] }

  lemma DispatchBits(mode: bv8)
    requires mode < 4
    ensures UdpModeOf(UdpDispatch(mode)) == mode && HasChecksum(UdpDispatch(mode)) && UdpDispatch(mode) & 0xF8 == 0xF0
  {}

  lemma PortBits(lo0: bv8, lo1: bv8)
    requires lo0 & 0xF0 == 0xB0 && lo1 & 0xF0 == 0xB0
    ensures SourcePort(PackPorts(lo0, lo1)) == lo0
    ensures DestinationPort(PackPorts(lo0, lo1)) == lo1 <==> lo0 & 0x04 == 0
  {}

  lemma PortsBack(u: Udp, rest: seq<byte>)
    ensures UdpPortsLength(UdpMode(u)) <= |UdpInline(u)|
    ensures PortsOut(UdpMode(u), UdpInline(u) + rest) == u[..4] <==> !PortsClash(u)
  {
    if UdpMode(u) == 3 { PortBits(u[1].bits, u[3].bits); }
    hide PackPorts, SourcePort, DestinationPort, UdpDispatch;
    assert u[..4] == [u[0], u[1], u[2], u[3]];
  }

  lemma InlineBytes(u: Udp)
    ensures var s, n := UdpInline(u), UdpPortsLength(UdpMode(u));
      |s| == n + 2 && s[0].bits == UdpDispatch(UdpMode(u)) && s[n] == u[6] && s[n + 1] == u[7]
  {}

  lemma PortsOutLength(mode: bv8, s: seq<byte>)
    requires UdpPortsLength(mode) <= |s|
    ensures |PortsOut(mode, s)| == 4
  {}

  lemma UdpParts(u: Udp, rest: seq<byte>)
    ensures var s, n := UdpInline(u) + rest, |rest| + UDP_HEADER;
      && UdpTaken(s[0].bits) == |UdpInline(u)| && UdpPortsLength(UdpMode(u)) <= |s|
      && UdpOut(s) == PortsOut(UdpMode(u), s) + [High(n), Low(n)] + [u[6], u[7]]
  {
    var s, n := UdpInline(u) + rest, UdpPortsLength(UdpMode(u));
    DispatchBits(UdpMode(u));
    InlineBytes(u);
    hide High, Low, UdpDispatch, UdpModeOf, HasChecksum, UdpInline, UdpMode, PortsOut;
    assert s[n..n + 2] == [u[6], u[7]];
  }

  /** A UDP header comes back with the length of what follows, unless its ports clash. */
  lemma UdpRoundTrip(u: Udp, rest: seq<byte>)
    ensures var s := UdpInline(u) + rest;
      && UdpTaken(s[0].bits) == |UdpInline(u)|
      && (UdpOut(s) == WithLength(u, |rest| + UDP_HEADER) <==> !PortsClash(u))
  {
    var s, len := UdpInline(u) + rest, |rest| + UDP_HEADER;
    UdpParts(u, rest);
    PortsBack(u, rest);
    PortsOutLength(UdpMode(u), s);
    hide High, Low, UdpInline, UdpMode, UdpTaken, UdpOut, UdpPortsLength, PortsOut, PortsClash;
    assert WithLength(u, len) == u[..4] + [High(len), Low(len)] + [u[6], u[7]];
    PartsEqual(PortsOut(UdpMode(u), s), [High(len), Low(len)], [u[6], u[7]], u[..4], [High(len), Low(len)], [u[6], u[7]]);
  }

  // ----- Frames -----

  /** What follows the IPv6 header looks like a compressed UDP header. */
  predicate LooksUdp(b: bv8) { b & 0xF8 == 0xF0 }

  /** It looks like a compressed routing, fragment or destination options header. */
  predicate LooksExtension(b: bv8) {
    b & 0xF0 == 0xE0 && (b & 0x0E == 0x02 || b & 0x0E == 0x04 || b & 0x0E == 0x06)
  }

  /** The frame for header `h`, followed by a UDP header and the rest of the payload, or by a payload
      of another protocol. */
  function UdpFrame(h: Ip6, ls: Link, ld: Link, u: Udp, data: seq<byte>): seq<byte> {
    Compressed(h, ls, ld) + (UdpInline(u) + data)
  }

  function PlainFrame(h: Ip6, ls: Link, ld: Link, payload: seq<byte>): seq<byte> {
    Compressed(h, ls, ld) + payload
  }

  function Taken(s: seq<byte>): nat
    requires |s| >= 2
  {
    At(s[0].bits, s[1].bits, FIELDS)
  }

  /** The byte that is looked at for the next header: behind an empty payload it is whatever lies in
      memory behind the frame. */
  function FirstOf(payload: seq<byte>, mem: byte): byte {
    if payload == [] then mem else payload[0]
  }

  // ----- Extension headers -----

  /** `ext_nh_retrieve`: the header that a dispatch byte announces, or 0. */
  function Retrieve(b: bv8): bv8 {
    if b & 0xF0 == 0xE0 then
      (if b & 0x0E == 0x02 then 43 else if b & 0x0E == 0x04 then 44 else if b & 0x0E == 0x06 then 60 else 0)
    else if LooksUdp(b) then UDP
    else 0
  }

  /** The test for an elided next header, with the bit that the IPHC bytes use for it. */
  predicate Inline(b: bv8) { b & 0x04 == 0 }

  predicate IsFragment(b: bv8) { b & 0x0E == 0x04 }

  function Octet(n: nat): byte { Byte(Bits8(n)) }

  function Pad(n: nat): (s: seq<byte>)
    ensures |s| == n
  {
    if n == 0 then [] else if n == 1 then [Byte(0)] else [Byte(1), Octet(n - 2)] + Zeros(n - 2)
  }

  /** The length byte is there. */
  predicate Sees(s: seq<byte>) {
    |s| >= 2 && (!IsFragment(s[0].bits) && Inline(s[0].bits) ==> |s| >= 3)
  }

  /** The bytes of the header at the start of `s`, its length byte included, that the code believes to see. */
  function Believed(s: seq<byte>): nat
    requires Sees(s)
  {
    if IsFragment(s[0].bits) then 8 else 2 + if Inline(s[0].bits) then Num(s[2].bits) else Num(s[1].bits)
  }

  /** The bytes it takes from the frame. */
  function Takes(s: seq<byte>): nat
    requires Sees(s)
  {
    Believed(s) + if !IsFragment(s[0].bits) && Inline(s[0].bits) then 1 else 0
  }

  /** Where the bytes behind the length byte begin. */
  function From(s: seq<byte>): nat
    requires Sees(s)
  {
    if IsFragment(s[0].bits) || Inline(s[0].bits) then 3 else 2
  }

  /** All that is read lies in the frame. */
  predicate Readable(s: seq<byte>) {
    Sees(s) && Takes(s) <= |s| && From(s) + Believed(s) - 2 <= |s|
  }

  function RoundedUp(n: nat): nat { (n + 7) / 8 * 8 }

  /** `decompressor_nhc_ext`; `next` is the byte behind what it takes. */
  function Expanded(s: seq<byte>, next: bv8): (e: seq<byte>)
    requires Readable(s)
    ensures |e| == RoundedUp(Believed(s)) >= 8
  {
    var len := Believed(s);
    [Byte(Retrieve(next)), Octet(RoundedUp(len) / 8 - 1)] + s[From(s)..From(s) + len - 2] + Pad(RoundedUp(len) - len)
  }

  /** The loop of `pico_iphc_decompress` behind the IPv6 header, when `i` pieces are there.  There is room
      for eight with the payload.  None: something outside the frame or the room is touched. */
  function Restore(s: seq<byte>, mem: byte, i: nat): Option<seq<byte>>
    decreases |s|
  {
    var first := FirstOf(s, mem).bits;
    if i >= 8 then None
    else if LooksUdp(first) then
      if s == [] || UdpTaken(first) > |s| || i == 7 then None else Some(UdpOut(s) + s[UdpTaken(first)..])
    else if LooksExtension(first) then
      if s == [] || !Readable(s) then None
      else
        var rest := s[Takes(s)..];
        var r := Restore(rest, mem, i + 1);
        if r.None? then None else Some(Expanded(s, FirstOf(rest, mem).bits) + r.value)
    else Some(s)
  }

  /** `pico_iphc_decompress`; `pico_ipv6_finalize` fills in the payload length and an elided next header. */
  function DecompressFrame(s: seq<byte>, ls: Link, ld: Link, mem: byte): Option<seq<byte>>
    requires |s| >= 2 && Taken(s) <= |s|
  {
    if !Decodes(s) then None
    else
      var h, next := HeaderUpto(s, ls, ld, FIELDS), s[Taken(s)..];
      HeaderLength(s, ls, ld);
      match Restore(next, mem, 1)
      case None => None
      case Some(payload) => Some(Finish(h, Retrieve(FirstOf(next, mem).bits), payload))
  }

  function Finish(h: Ip6, nh: bv8, payload: seq<byte>): seq<byte> {
    Finalize((if h[6].bits == 0 then h[6 := B(nh)] else h) + payload)
  }

  lemma HeaderLength(s: seq<byte>, ls: Link, ld: Link)
    requires Decodes(s)
    ensures |HeaderUpto(s, ls, ld, FIELDS)| == 40
  {
    UptoLength(s, ls, ld, 6);
  }

  lemma UptoStep(s: seq<byte>, ls: Link, ld: Link, i: nat)
    requires |s| >= 2 && At(s[0].bits, s[1].bits, i + 1) <= |s|
    ensures var from := At(s[0].bits, s[1].bits, i);
      && from + FieldLength(s[0].bits, s[1].bits, i) == At(s[0].bits, s[1].bits, i + 1)
      && HeaderUpto(s, ls, ld, i + 1) == HeaderUpto(s, ls, ld, i) + FieldOut(s[0].bits, s[1].bits, i, s[from..], ls, ld)
  {
    hide FieldLength, FieldOut, GetContext;
  }

  lemma {:induction false} UptoLength(s: seq<byte>, ls: Link, ld: Link, i: nat)
    requires |s| >= 2 && i <= 6 && At(s[0].bits, s[1].bits, i) <= |s|
    ensures |HeaderUpto(s, ls, ld, i)| == Off(i)
  {
    hide FieldLength, FieldOut, GetContext;
    if i > 0 {
      UptoStep(s, ls, ld, i - 1);
      FieldSize(s[0].bits, s[1].bits, s[At(s[0].bits, s[1].bits, i - 1)..], ls, ld, i - 1);
      UptoLength(s, ls, ld, i - 1);
      hide HeaderUpto, At;
    }
  }

  lemma FieldSize(b0: bv8, b1: bv8, s: seq<byte>, ls: Link, ld: Link, i: nat)
    requires i < FIELDS && FieldLength(b0, b1, i) <= |s|
    ensures |FieldOut(b0, b1, i, s, ls, ld)| == Off(i + 1) - Off(i)
  {
    if i >= 4 { OutLengths(b0, b1, s, ls, ld, i); } else { FixedLengths(b0, b1, s, ls, ld, i); }
    hide FieldLength, FieldOut;
  }

  lemma FixedLengths(b0: bv8, b1: bv8, s: seq<byte>, ls: Link, ld: Link, i: nat)
    requires i < 4 && FieldLength(b0, b1, i) <= |s|
    ensures |FieldOut(b0, b1, i, s, ls, ld)| == Off(i + 1) - Off(i)
  {}

  // ----- Facts for whole frames -----

  lemma HeaderBack(h: Ip6, ls: Link, ld: Link, next: seq<byte>)
    requires Version6(h[0].bits) && Restorable(Src(h), Dst(h), ls, ld)
    ensures var s := Compressed(h, ls, ld) + next;
      |s| >= 2 && Decodes(s) && Taken(s) == |Compressed(h, ls, ld)| && s[Taken(s)..] == next && HeaderUpto(s, ls, ld, FIELDS) == Bare(h)
  {
    IphcRoundTrip(h, ls, ld, next);
    hide Restorable, Version6, Compressed, Decodes, HeaderUpto, At, Bare;
  }

  /** Only payload length and next header differ, and `Finalize` overwrites the former. */
  lemma FinishBare(h: Ip6, nh: bv8, payload: seq<byte>)
    requires Compressible(h[6].bits) ==> nh == h[6].bits
    ensures Finish(Bare(h), nh, payload) == Finalize(h + payload)
  {
    var b := if Bare(h)[6].bits == 0 then Bare(h)[6 := B(nh)] else Bare(h);
    BareParts(h);
    var n := 40 + |payload| - IP6_HEADER;
    hide High, Low, Compressible;
    forall i | 0 <= i < 40 && i != 4 && i != 5 ensures b[i] == h[i] {
    }
    assert (b + payload)[4 := High(n)][5 := Low(n)] == (h + payload)[4 := High(n)][5 := Low(n)];
  }

  lemma LooksApart(b: bv8)
    ensures LooksUdp(b) ==> !LooksExtension(b)
  {}

  /** A restored UDP header is longer than its compressed form. */
  lemma UdpLonger(s: seq<byte>)
    requires |s| >= 1 && UdpTaken(s[0].bits) <= |s|
    ensures |UdpOut(s) + s[UdpTaken(s[0].bits)..]| > |s|
  {
    PortsOutLength(UdpModeOf(s[0].bits), s);
    hide PortsOut, High, Low, UdpModeOf, HasChecksum;
  }

  lemma UdpOutLength(s: seq<byte>)
    requires |s| >= 1 && UdpTaken(s[0].bits) <= |s|
    ensures |UdpOut(s)| == 8
  {
    PortsOutLength(UdpModeOf(s[0].bits), s);
    hide PortsOut, High, Low, UdpModeOf, HasChecksum;
  }
}
