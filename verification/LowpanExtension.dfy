/**
 IPv6 extension headers through 6LoWPAN compression and back (section 4.2 of RFC 6282): which chains of
 headers between the IPv6 header and the payload survive.
 */
module LowpanExtension {
  import opened Bytes
  import opened LowpanIphc
  import opened LowpanHeader
  import opened LowpanDefrag
  import opened LowpanFrame

  datatype Kind = HopByHop | Routing | Fragment | DestOptions

  /** An extension header without its first byte, which names the header after it. */
  datatype Ext = Ext(kind: Kind, rest: seq<byte>)

  /** What the chain ends in. */
  datatype Tail = UdpTail(u: Udp, data: seq<byte>) | Other(nh: bv8, payload: seq<byte>)

  type Exts = seq<Ext>

  /** The length byte counts units of eight bytes behind the first. */
  predicate IsExt(e: Ext) {
    |e.rest| >= 7 && |e.rest| == if e.kind.Fragment? then 7 else 8 * Num(e.rest[0].bits) + 7
  }

  predicate IsTail(t: Tail) { t.Other? ==> !Compressible(t.nh) }

  predicate IsChain(es: Exts, t: Tail) {
    IsTail(t) && forall k :: 0 <= k < |es| ==> IsExt(es[k])
  }

  // ----- The numbers -----

  function Number(k: Kind): bv8 {
    match k case HopByHop => 0 case Routing => 43 case Fragment => 44 case DestOptions => 60
  }

  function Eid(k: Kind): bv8 {
    match k case HopByHop => 0x00 case Routing => 0x02 case Fragment => 0x04 case DestOptions => 0x06
  }

  function ExtDispatch(k: Kind, elided: bool): bv8 { 0xE0 | Eid(k) | if elided then 0x01 else 0x00 }

  lemma DispatchFacts(k: Kind, elided: bool)
    ensures var b := ExtDispatch(k, elided);
      && Retrieve(b) == Number(k) && (LooksExtension(b) <==> !k.HopByHop?) && !LooksUdp(b) && !Compressible(b)
      && (IsFragment(b) <==> k.Fragment?) && (Inline(b) <==> k.HopByHop? || k.Routing?)
    ensures Compressible(Number(k))
  {}

  lemma RetrieveFacts(b: bv8)
    ensures Compressible(Retrieve(b))
    ensures LooksExtension(b) <==> Retrieve(b) == 43 || Retrieve(b) == 44 || Retrieve(b) == 60
    ensures LooksUdp(b) <==> Retrieve(b) == UDP
  {}

  lemma NumBack(v: bv8)
    ensures Num(v) < 256 && Bits8(Num(v)) == v
  {
    assert Num(v) < 256;
    Value8(Num(v));
    hide Bits8;
    Below8(v, Bits8(Num(v)));
    Below8(Bits8(Num(v)), v);
  }

  // ----- Compression -----

  /** What the header before the chain names as next. */
  function NextOf(es: Exts, t: Tail): bv8 {
    if es != [] then Number(es[0].kind) else if t.UdpTail? then UDP else t.nh
  }

  function Whole(e: Ext, nh: bv8): seq<byte> { [Byte(nh)] + e.rest }

  function TailBytes(t: Tail): seq<byte> {
    match t case UdpTail(u, data) => u + data case Other(_, payload) => payload
  }

  /** The chain as it stands in the datagram. */
  function Original(es: Exts, t: Tail): seq<byte> {
    if es == [] then TailBytes(t) else Whole(es[0], NextOf(es[1..], t)) + Original(es[1..], t)
  }

  /** The length byte now counts bytes behind itself, in eight bits. */
  function Recounted(e: Ext): seq<byte>
    requires IsExt(e)
  {
    if e.kind.Fragment? then e.rest else [Octet((|e.rest| - 1) % 256)] + e.rest[1..]
  }

  /** `compressor_nhc_ext`. */
  function Squeezed(e: Ext, nh: bv8): seq<byte>
    requires IsExt(e)
  {
    (if Compressible(nh) then [Byte(ExtDispatch(e.kind, true))] else [Byte(ExtDispatch(e.kind, false)), Byte(nh)]) + Recounted(e)
  }

  function TailSqueezed(t: Tail): seq<byte> {
    match t case UdpTail(u, data) => UdpInline(u) + data case Other(_, payload) => payload
  }

  /** The chain as it stands in the frame. */
  function Chain(es: Exts, t: Tail): seq<byte>
    requires IsChain(es, t)
  {
    if es == [] then TailSqueezed(t) else Squeezed(es[0], NextOf(es[1..], t)) + Chain(es[1..], t)
  }

  // ----- What survives -----

  /** A fragment header is shifted by one byte, over the first byte of what follows. */
  predicate Echoes(e: Ext, next: byte)
    requires |e.rest| == 7
  {
    e.rest[0] == Byte(0) && forall k :: 1 <= k < 7 ==> e.rest[k] == next
  }

  predicate ExtSurvives(e: Ext, next: byte)
    requires IsExt(e)
  {
    match e.kind
    case DestOptions => Num(e.rest[0].bits) <= 31
    case Fragment => Echoes(e, next)
    case _ => false
  }

  predicate TailSurvives(t: Tail, mem: byte) {
    match t
    case UdpTail(u, _) => !PortsClash(u)
    case Other(_, payload) => var b := FirstOf(payload, mem).bits; !LooksUdp(b) && !LooksExtension(b)
  }

  /** Only destination options come through, up to 256 bytes each, and only before UDP. */
  predicate Survives(es: Exts, t: Tail, mem: byte)
    requires IsChain(es, t)
  {
    if es == [] then TailSurvives(t, mem)
    else
      && Compressible(NextOf(es[1..], t))
      && ExtSurvives(es[0], FirstOf(Chain(es[1..], t), mem))
      && Survives(es[1..], t, mem)
  }

  /** The UDP length is the one that the bytes give. */
  function Relengthened(t: Tail): Tail {
    match t case UdpTail(u, data) => UdpTail(WithLength(u, |data| + UDP_HEADER), data) case Other(_, _) => t
  }

  // ----- One header -----

  /** Whatever is taken for an extension header names a next header that can be compressed. */
  lemma NamesCompressible(s: seq<byte>, mem: byte, i: nat)
    requires LooksExtension(FirstOf(s, mem).bits)
    ensures var r := Restore(s, mem, i); r.Some? ==> |r.value| >= 8 && Compressible(r.value[0].bits)
  {
    hide Compressible, LooksExtension, LooksUdp, Retrieve, Pad, Octet, RoundedUp, UdpOut, UdpTaken;
    LooksApart(FirstOf(s, mem).bits);
    if s != [] && Readable(s) { RetrieveFacts(FirstOf(s[Takes(s)..], mem).bits); }
  }

  lemma RestoreStep(s: seq<byte>, mem: byte, i: nat)
    requires i < 8 && s != [] && LooksExtension(s[0].bits)
    ensures !Readable(s) ==> Restore(s, mem, i).None?
    ensures Readable(s) ==>
      var rest := s[Takes(s)..];
      var r := Restore(rest, mem, i + 1);
      Restore(s, mem, i) == if r.None? then None else Some(Expanded(s, FirstOf(rest, mem).bits) + r.value)
  {
    LooksApart(s[0].bits);
    hide LooksExtension, LooksUdp, Readable, Expanded, Takes;
  }

  /** A compressed header with an elided next header, byte by byte. */
  lemma SqueezedParts(e: Ext, nh: bv8, c: seq<byte>)
    requires IsExt(e) && Compressible(nh)
    ensures var s, n := Squeezed(e, nh) + c, |e.rest| + 1;
      && |Squeezed(e, nh)| == n && s[0] == Byte(ExtDispatch(e.kind, true)) && s[n..] == c
      && (e.kind.Fragment? ==> s[1] == e.rest[0]) && (!e.kind.Fragment? ==> s[1] == Octet((n - 2) % 256))
      && forall k :: 2 <= k < n ==> s[k] == e.rest[k - 1]
  {
    hide ExtDispatch, Octet, Compressible;
  }

  /** The length byte `l`, recounted and counted back. */
  lemma Counts(l: nat)
    ensures var m := (8 * l + 6) % 256; RoundedUp(2 + m) == 2 + m && (2 + m) / 8 - 1 <= 31 && (l <= 31 ==> m == 8 * l + 6 && (2 + m) / 8 - 1 == l)
  {}

  /** What the code sees of destination options. */
  lemma OptionsSeen(e: Ext, nh: bv8, c: seq<byte>)
    requires IsExt(e) && e.kind.DestOptions? && Compressible(nh)
    ensures var s := Squeezed(e, nh) + c;
      |s| > 2 && LooksExtension(s[0].bits) && Sees(s) && Takes(s) == Believed(s) == 2 + (|e.rest| - 1) % 256 && From(s) == 2
  {
    SqueezedParts(e, nh, c);
    DispatchFacts(e.kind, true);
    Value8((|e.rest| - 1) % 256);
    hide *;
    ExtLength(e);
    OptionsBelieved(Squeezed(e, nh) + c, e.kind, (|e.rest| - 1) % 256);
  }

  lemma ExtLength(e: Ext)
    requires IsExt(e)
    ensures |e.rest| >= 7
  {}

  lemma OptionsBelieved(s: seq<byte>, k: Kind, m: nat)
    requires |s| >= 3 && s[0] == Byte(ExtDispatch(k, true)) && k.DestOptions? && s[1] == Octet(m) && Num(Bits8(m)) == m
    ensures Sees(s) && Takes(s) == Believed(s) == 2 + m && From(s) == 2
  {
    DispatchFacts(k, true);
    hide ExtDispatch, IsFragment, Inline, Num, Bits8;
  }

  lemma ExpandedParts(s: seq<byte>, next: bv8)
    requires Readable(s)
    ensures var x, len := Expanded(s, next), Believed(s);
      && x[0] == Byte(Retrieve(next)) && x[1] == Octet(RoundedUp(len) / 8 - 1)
      && (RoundedUp(len) == len ==> x[2..] == s[From(s)..From(s) + len - 2])
  {
    hide Believed, From, Retrieve, Octet, RoundedUp, Takes, Pad;
  }

  lemma ShortOptions(e: Ext)
    requires IsExt(e) && e.kind.DestOptions? && Num(e.rest[0].bits) <= 31
    ensures var n := |e.rest| + 1; (n - 2) % 256 == n - 2 && RoundedUp(n) == n && Octet(n / 8 - 1) == e.rest[0]
  {
    hide Num, Bits8, RoundedUp;
    Counts(Num(e.rest[0].bits));
    NumBack(e.rest[0].bits);
  }

  lemma ReadableIntro(s: seq<byte>)
    requires Sees(s) && Takes(s) == Believed(s) <= |s| && From(s) == 2
    ensures Readable(s)
  {}

  lemma TwoAndMore<T>(x: seq<T>, a: T, b: T, rest: seq<T>)
    requires |x| >= 2 && x[0] == a && x[1] == b && x[2..] == rest
    ensures x == [a] + ([b] + rest)
  {
    assert x == x[..2] + x[2..];
  }

  lemma MiddleIs(s: seq<byte>, e: Ext)
    requires |e.rest| >= 1 && |s| >= |e.rest| + 1 && forall k :: 2 <= k < |e.rest| + 1 ==> s[k] == e.rest[k - 1]
    ensures s[2..|e.rest| + 1] == e.rest[1..]
  {}

  /** Destination options of up to 256 bytes come back. */
  lemma OptionsBack(e: Ext, nh: bv8, c: seq<byte>)
    requires IsExt(e) && e.kind.DestOptions? && Num(e.rest[0].bits) <= 31 && Compressible(nh) && c != [] && Retrieve(c[0].bits) == nh
    ensures var s := Squeezed(e, nh) + c;
      |s| > 0 && LooksExtension(s[0].bits) && Readable(s) && s[Takes(s)..] == c && Expanded(s, c[0].bits) == Whole(e, nh)
  {
    var s, n := Squeezed(e, nh) + c, |e.rest| + 1;
    hide *;
    SqueezedParts(e, nh, c);
    OptionsSeen(e, nh, c);
    ShortOptions(e);
    ReadableIntro(s);
    ExpandedParts(s, c[0].bits);
    MiddleIs(s, e);
    TwoAndMore(Expanded(s, c[0].bits), Byte(nh), e.rest[0], e.rest[1..]);
    WholeIs(e, nh);
  }

  lemma WholeIs(e: Ext, nh: bv8)
    requires |e.rest| > 0
    ensures Whole(e, nh) == [Byte(nh)] + ([e.rest[0]] + e.rest[1..])
  {
    assert e.rest == [e.rest[0]] + e.rest[1..];
  }

  /** Longer ones come back with another length byte. */
  lemma OptionsTooLong(e: Ext, nh: bv8, c: seq<byte>, next: bv8)
    requires IsExt(e) && e.kind.DestOptions? && Num(e.rest[0].bits) > 31 && Compressible(nh)
    ensures var s := Squeezed(e, nh) + c;
      |s| > 0 && LooksExtension(s[0].bits) && (Readable(s) ==> Expanded(s, next)[1] != e.rest[0])
  {
    var s, l := Squeezed(e, nh) + c, Num(e.rest[0].bits);
    hide Compressible, Retrieve, ExtDispatch, LooksExtension, IsFragment, Inline, Squeezed, Bits8, Num, Expanded, Believed, From, Takes;
    OptionsSeen(e, nh, c);
    Counts(l);
    if Readable(s) {
      ExpandedParts(s, next);
      Value8(RoundedUp(Believed(s)) / 8 - 1);
    }
  }

  /** A fragment header is shifted over the byte behind it. */
  lemma FragmentShifted(e: Ext, nh: bv8, c: seq<byte>)
    requires IsExt(e) && e.kind.Fragment? && Compressible(nh) && c != [] && Retrieve(c[0].bits) == nh
    ensures var s := Squeezed(e, nh) + c;
      |s| > 0 && LooksExtension(s[0].bits) && Readable(s) && s[Takes(s)..] == c
      && |Expanded(s, c[0].bits)| == 8 && (Expanded(s, c[0].bits) == Whole(e, nh) <==> Echoes(e, c[0]))
  {
    var s := Squeezed(e, nh) + c;
    FragmentSeen(e, nh, c);
    SqueezedParts(e, nh, c);
    hide *;
    ExpandedParts(s, c[0].bits);
    SevenBytes(e);
    ShiftedEqual(Expanded(s, c[0].bits), s, e, nh, c[0]);
  }

  lemma SevenBytes(e: Ext)
    requires IsExt(e) && e.kind.Fragment?
    ensures |e.rest| == 7 && Octet(0) == Byte(0) && RoundedUp(8) == 8
  {}

  lemma FragmentSeen(e: Ext, nh: bv8, c: seq<byte>)
    requires IsExt(e) && e.kind.Fragment? && Compressible(nh) && c != []
    ensures var s := Squeezed(e, nh) + c;
      |s| >= 9 && LooksExtension(s[0].bits) && Readable(s) && Believed(s) == 8 == Takes(s) && From(s) == 3 && s[8..] == c && s[8] == c[0]
  {
    var s := Squeezed(e, nh) + c;
    SqueezedParts(e, nh, c);
    DispatchFacts(e.kind, true);
    hide Compressible, ExtDispatch, LooksExtension, IsFragment, Inline, Squeezed;
    assert s[8] == s[8..][0];
  }

  lemma ShiftedEqual(x: seq<byte>, s: seq<byte>, e: Ext, nh: bv8, next: byte)
    requires |x| == 8 && |s| >= 9 && |e.rest| == 7 && x[0] == Byte(nh) && x[1] == Byte(0) && x[2..] == s[3..9]
    requires s[8] == next && forall k :: 2 <= k < 8 ==> s[k] == e.rest[k - 1]
    ensures x == Whole(e, nh) <==> Echoes(e, next)
  {
    var w := Whole(e, nh);
    assert w[0] == Byte(nh) && w[1] == e.rest[0] && w[2..] == e.rest[1..];
    assert x == [x[0], x[1]] + x[2..] && w == [w[0], w[1]] + w[2..];
    var a := e.rest[1..];
    forall j | 0 <= j < 6 ensures s[3..9][j] == (a[1..] + [next])[j] {
      assert s[3..9][j] == s[j + 3];
      if j < 5 { assert s[j + 3] == e.rest[j + 2] == a[1..][j]; }
    }
    assert s[3..9] == a[1..] + [next];
    EchoExactly(a, next);
    assert (forall k :: 1 <= k < 7 ==> e.rest[k] == next) <==> a == seq(6, _ => next) by {
      if a == seq(6, _ => next) {
        forall k | 1 <= k < 7 ensures e.rest[k] == next { assert e.rest[k] == a[k - 1]; }
      }
    }
  }

  lemma EchoExactly(a: seq<byte>, next: byte)
    requires |a| == 6
    ensures a[1..] + [next] == a <==> a == seq(6, _ => next)
  {
    var b := a[1..] + [next];
    if b == a {
      assert a[5] == b[5] && a[4] == b[4] && a[3] == b[3] && a[2] == b[2] && a[1] == b[1] && a[0] == b[0];
    }
  }

  lemma ReadableFacts(s: seq<byte>)
    requires Readable(s)
    ensures Sees(s) && 2 <= Believed(s) && Takes(s) <= |s| && From(s) + Believed(s) - 2 <= |s|
  {}

  lemma RoundedUpFacts(n: nat)
    ensures n <= RoundedUp(n) < n + 8 && RoundedUp(n) % 8 == 0
  {}

  lemma WholeLength(e: Ext, nh: bv8)
    ensures |Whole(e, nh)| == |e.rest| + 1
  {}

  lemma WholeAt(e: Ext, nh: bv8, k: nat)
    requires 1 <= k < |e.rest| + 1
    ensures k < |Whole(e, nh)| && Whole(e, nh)[k] == e.rest[k - 1]
  {}

  // ----- Where a chain begins -----

  lemma DispatchNum(k: Kind, elided: bool)
    ensures Num(ExtDispatch(k, elided)) % 8 == 6 <==> k.DestOptions? && !elided
  {
    assert Num(0xE0) == 224 && Num(0xE1) == 225 && Num(0xE2) == 226 && Num(0xE3) == 227;
    assert Num(0xE4) == 228 && Num(0xE5) == 229 && Num(0xE6) == 230 && Num(0xE7) == 231;
  }

  lemma UdpDispatchNum(mode: bv8)
    requires mode < 4
    ensures Num(UdpDispatch(mode)) % 8 != 6
  {
    assert mode == 0 || mode == 1 || mode == 2 || mode == 3;
    assert Num(0xF0) == 240 && Num(0xF1) == 241 && Num(0xF2) == 242 && Num(0xF3) == 243;
  }

  lemma SqueezedFirst(e: Ext, nh: bv8)
    requires IsExt(e)
    ensures |Squeezed(e, nh)| == |e.rest| + (if Compressible(nh) then 1 else 2)
    ensures Squeezed(e, nh)[0] == Byte(ExtDispatch(e.kind, Compressible(nh)))
    ensures !Compressible(nh) ==> Squeezed(e, nh)[1] == Byte(nh)
  {
    hide ExtDispatch, Compressible, Octet;
  }

  lemma UdpFirst(u: Udp)
    ensures |UdpInline(u)| > 0 && UdpInline(u)[0].bits == UdpDispatch(UdpMode(u)) && UdpMode(u) < 4
  {}

  /** The first byte announces the header that it begins. */
  lemma ChainStart(es: Exts, t: Tail)
    requires IsChain(es, t) && Compressible(NextOf(es, t))
    ensures var c := Chain(es, t);
      && c != [] && Retrieve(c[0].bits) == NextOf(es, t)
      && (Num(c[0].bits) % 8 == 6 ==> es != [] && es[0].kind.DestOptions? && !Compressible(NextOf(es[1..], t)))
  {
    if es == [] {
      assert t.UdpTail?;
      UdpFirst(t.u);
      UdpDispatchNum(UdpMode(t.u));
      DispatchBits(UdpMode(t.u));
      RetrieveFacts(UdpDispatch(UdpMode(t.u)));
      hide Retrieve, UdpDispatch, UdpMode, UdpInline, Num;
    } else {
      var nh := NextOf(es[1..], t);
      SqueezedFirst(es[0], nh);
      DispatchFacts(es[0].kind, Compressible(nh));
      DispatchNum(es[0].kind, Compressible(nh));
      hide Retrieve, Squeezed, ExtDispatch, Compressible, Num, IsExt;
    }
  }

  lemma ChainIs(es: Exts, t: Tail)
    requires IsChain(es, t) && es != []
    ensures IsExt(es[0]) && IsChain(es[1..], t) && Chain(es, t) == Squeezed(es[0], NextOf(es[1..], t)) + Chain(es[1..], t)
    ensures Original(es, t) == Whole(es[0], NextOf(es[1..], t)) + Original(es[1..], t)
    ensures NextOf(es, t) == Number(es[0].kind)
  {
    hide Squeezed, Whole, IsExt;
  }

  lemma EndsPlain(es: Exts, t: Tail)
    requires IsChain(es, t) && !Compressible(NextOf(es, t))
    ensures es == [] && t.Other? && Chain(es, t) == Original(es, t) == t.payload
  {}

  lemma RelengthenedFacts(es: Exts, t: Tail)
    requires IsChain(es, t)
    ensures IsChain(es, Relengthened(t)) && NextOf(es, Relengthened(t)) == NextOf(es, t) && (t.Other? ==> Relengthened(t) == t)
  {
    hide WithLength;
  }

  lemma Cancel<T>(a: seq<T>, b: seq<T>, c: seq<T>, d: seq<T>)
    requires |a| == |b| && a + c == b + d
    ensures a == b && c == d
  {
    assert (a + c)[..|a|] == a && (a + c)[|a|..] == c;
    assert (b + d)[..|b|] == b && (b + d)[|b|..] == d;
  }

  lemma SecondOf<T>(a: seq<T>, b: seq<T>, c: seq<T>, d: seq<T>)
    requires |a| >= 2 && |b| >= 2 && a + c == b + d
    ensures a[0] == b[0] && a[1] == b[1]
  {
    assert (a + c)[0] == a[0] && (a + c)[1] == a[1] && (b + d)[0] == b[0] && (b + d)[1] == b[1];
  }

  lemma PlainRestored(s: seq<byte>, mem: byte, i: nat)
    requires i < 8 && Retrieve(FirstOf(s, mem).bits) == 0
    ensures Restore(s, mem, i) == Some(s)
  {
    RetrieveFacts(FirstOf(s, mem).bits);
    hide Retrieve, LooksUdp, LooksExtension;
  }

  lemma RestoreRoom(s: seq<byte>, mem: byte, i: nat)
    requires Restore(s, mem, i).Some?
    ensures i < 8
  {}

  lemma WholeFirst(e: Ext, nh: bv8)
    ensures Whole(e, nh)[0] == Byte(nh)
  {}
}
