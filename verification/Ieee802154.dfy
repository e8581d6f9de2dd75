/** The IEEE 802.15.4 header under 6LoWPAN: addresses are kept most significant byte first and sent least
    significant byte first. */
module Ieee802154 {
  import opened Bytes
  import opened LowpanIphc
  import opened Sequences

  const MIN_HEADER := 5
  const SHORT: bv8 := 2
  const EXTENDED: bv8 := 3

  /** Bytes of an address in the given mode. */
  function SizeOf(mode: bv8): nat {
    if mode == SHORT then 2 else if mode == EXTENDED then 8 else 0
  }

  type Data = s: seq<byte> | |s| == 8 witness seq(8, _ => Byte(0))

  // ----- Turning an address around -----

  function Xor(a: byte, b: byte): byte { Byte(a.bits ^ b.bits) }

  lemma XorTwice(a: byte, b: byte)
    ensures Xor(Xor(a, b), b) == a && Xor(Xor(a, b), a) == b
  {}

  /** `pico_swap`, which needs two different places. */
  method Swap(a: array<byte>, i: nat, j: nat)
    requires i < a.Length && j < a.Length && i != j
    modifies a
    ensures a[..] == old(a[..])[i := old(a[j])][j := old(a[i])]
  {
    hide Xor;
    XorTwice(a[i], a[j]);
    a[i] := Xor(a[i], a[j]);
    a[j] := Xor(a[i], a[j]);
    a[i] := Xor(a[i], a[j]);
  }

  /** The first `n` bytes in reverse, the others as they are. */
  function Reversed<T>(s: seq<T>, n: nat): (r: seq<T>)
    requires n <= |s|
    ensures |r| == |s| && forall i :: 0 <= i < |s| ==> r[i] == if i < n then s[n - 1 - i] else s[i]
  {
    seq(|s|, i requires 0 <= i < |s| => if i < n then s[n - 1 - i] else s[i])
  }

  lemma ReversedTwice<T>(s: seq<T>, n: nat)
    requires n <= |s|
    ensures Reversed(Reversed(s, n), n) == s
  {}

  /** `addr_802154_to_ietf`, which is also `addr_802154_to_ieee`. */
  method TurnAround(a: array<byte>, mode: bv8)
    requires a.Length == 8
    modifies a
    ensures a[..] == Reversed(old(a[..]), SizeOf(mode))
  {
    var n := SizeOf(mode);
    var i := 0;
    while i < n / 2
      invariant 0 <= i <= n / 2
      invariant forall k :: 0 <= k < 8 ==> a[k] == if k < i || n - i <= k < n then old(a[n - 1 - k]) else old(a[k])
    {
      ghost var was := a[..];
      Swap(a, i, n - 1 - i);
      assert forall k :: 0 <= k < 8 ==> a[k] == a[..][k];
      i := i + 1;
    }
  }

  // ----- The header -----

  /** The two bytes of the frame control field: a data frame, the three flags, and both address modes. */
  function Control0(sec: bool, ack: bool, intra: bool): bv8 {
    0x01 | (if sec then 0x08 else 0) | (if ack then 0x20 else 0) | (if intra then 0x40 else 0)
  }

  function Control1(dam: bv8, sam: bv8): bv8 { (dam << 2) | (sam << 6) }

  function DstMode(c: bv8): bv8 { (c >> 2) & 0x03 }

  function SrcMode(c: bv8): bv8 { (c >> 6) & 0x03 }

  lemma ModesBack(dam: bv8, sam: bv8)
    requires dam < 4 && sam < 4
    ensures DstMode(Control1(dam, sam)) == dam && SrcMode(Control1(dam, sam)) == sam
  {}

  /** `frame_802154_hdr_len`. */
  function HeaderLength(f: seq<byte>): nat
    requires |f| >= MIN_HEADER
  {
    MIN_HEADER + SizeOf(SrcMode(f[1].bits)) + SizeOf(DstMode(f[1].bits))
  }

  function Header(sn: byte, sec: bool, ack: bool, intra: bool, pan0: byte, pan1: byte, sam: bv8, dam: bv8): seq<byte> {
    [Byte(Control0(sec, ack, intra)), Byte(Control1(dam, sam)), sn, pan1, pan0]
  }

  /** `frame_802154_format`. */
  method Format(buf: array<byte>, sn: byte, sec: bool, ack: bool, intra: bool, pan0: byte, pan1: byte,
                sam: bv8, src: Data, dam: bv8, dst: Data)
    requires buf.Length >= MIN_HEADER + SizeOf(sam) + SizeOf(dam) && sam < 4 && dam < 4
    modifies buf
    ensures buf[..MIN_HEADER + SizeOf(dam) + SizeOf(sam)] ==
      Header(sn, sec, ack, intra, pan0, pan1, sam, dam) + Reversed(dst, SizeOf(dam))[..SizeOf(dam)] + Reversed(src, SizeOf(sam))[..SizeOf(sam)]
  {
    hide Control0, Control1;
    var s := new byte[8](i requires 0 <= i < 8 => src[i]);
    var d := new byte[8](i requires 0 <= i < 8 => dst[i]);
    assert s[..] == src && d[..] == dst;
    TurnAround(s, sam);
    TurnAround(d, dam);
    ghost var none := buf[..0];
    Copy(buf, 0, Header(sn, sec, ack, intra, pan0, pan1, sam, dam));
    assert buf[..MIN_HEADER] == Header(sn, sec, ack, intra, pan0, pan1, sam, dam);
    Copy(buf, MIN_HEADER, d[..SizeOf(dam)]);
    Copy(buf, MIN_HEADER + SizeOf(dam), s[..SizeOf(sam)]);
    assert d[..SizeOf(dam)] == d[..][..SizeOf(dam)] && s[..SizeOf(sam)] == s[..][..SizeOf(sam)];
  }

  /** `n` bytes and zeros up to eight. */
  function Padded(s: seq<byte>): Data
    requires |s| <= 8
  {
    s + Zeros(8 - |s|)
  }

  /** What `frame_802154_dst` and `frame_802154_src` read. */
  function DstIn(f: seq<byte>): seq<byte>
    requires |f| >= MIN_HEADER && |f| >= HeaderLength(f)
  {
    var n := SizeOf(DstMode(f[1].bits));
    Reversed(Padded(f[MIN_HEADER..MIN_HEADER + n]), n)
  }

  function SrcIn(f: seq<byte>): seq<byte>
    requires |f| >= MIN_HEADER && |f| >= HeaderLength(f)
  {
    var m, n := SizeOf(DstMode(f[1].bits)), SizeOf(SrcMode(f[1].bits));
    Reversed(Padded(f[MIN_HEADER + m..MIN_HEADER + m + n]), n)
  }

  /** An address as far as its mode goes. */
  function Canon(mode: bv8, data: Data): Data { Padded(data[..SizeOf(mode)]) }

  lemma TakenBack(mode: bv8, data: Data)
    ensures Reversed(Padded(Reversed(data, SizeOf(mode))[..SizeOf(mode)]), SizeOf(mode)) == Canon(mode, data)
  {}

  /** MAIN RESULT.  Whatever follows in the frame, both addresses and their modes come back from a formatted
      header, and its length is found. */
  lemma HeaderRoundTrip(h: seq<byte>, sam: bv8, src: Data, dam: bv8, dst: Data, rest: seq<byte>)
    requires |h| == MIN_HEADER && sam < 4 && dam < 4 && h[1].bits == Control1(dam, sam)
    ensures var head := h + Reversed(dst, SizeOf(dam))[..SizeOf(dam)] + Reversed(src, SizeOf(sam))[..SizeOf(sam)];
      var f := head + rest;
      && HeaderLength(f) == |head| && DstMode(f[1].bits) == dam && SrcMode(f[1].bits) == sam
      && DstIn(f) == Canon(dam, dst) && SrcIn(f) == Canon(sam, src)
  {
    ModesBack(dam, sam);
    hide Control1, DstMode, SrcMode;
    var m, n := SizeOf(dam), SizeOf(sam);
    var d, s := Reversed(dst, m)[..m], Reversed(src, n)[..n];
    var f := h + d + s + rest;
    assert f[MIN_HEADER..MIN_HEADER + m] == d;
    assert f[MIN_HEADER + m..MIN_HEADER + m + n] == s;
    hide SizeOf, Padded, Reversed;
    TakenBack(dam, dst);
    TakenBack(sam, src);
  }

  /** `addr_802154_iid`: the interface identifier an address gives. */
  function Iid(mode: bv8, data: Data): Link {
    if mode == SHORT then Some([B(0), B(0), B(0), B(0xFF), B(0xFE), B(0), data[0], data[1]])
    else if mode == EXTENDED then Some(data[0 := Xor(data[0], B(0x02))])
    else None
  }

  /** So compressor and decompressor, on the two sides of the link, work with the same identifiers. */
  lemma SameIid(mode: bv8, data: Data)
    ensures Iid(mode, Canon(mode, data)) == Iid(mode, data)
  {
    hide Xor;
    var c := Canon(mode, data);
    if mode == SHORT {
      assert c[0] == data[0] && c[1] == data[1];
    } else if mode == EXTENDED {
      assert c == data;
    }
  }
}
