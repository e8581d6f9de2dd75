/**
 Chains of extension headers and whole frames through 6LoWPAN compression and back: a datagram comes back
 exactly if every header of its chain does.
 */
module LowpanChain {
  import opened Bytes
  import opened LowpanIphc
  import opened LowpanHeader
  import opened LowpanDefrag
  import opened LowpanFrame
  import opened LowpanExtension
  import opened LowpanRouting
  import opened Sequences

  // ----- Chains -----

  lemma FirstDiffers(s: seq<byte>, e: Ext, nh: bv8, o: seq<byte>)
    requires |s| > 0 && s[0] != Byte(nh)
    ensures s != Whole(e, nh) + o
  {
    assert (Whole(e, nh) + o)[0] == Byte(nh);
  }

  /** Hop-by-hop options stay compressed, for their number, zero, ends the loop. */
  lemma HopByHopLost(e: Ext, es: Exts, t: Tail, mem: byte, i: nat)
    requires IsExt(e) && e.kind.HopByHop? && IsChain(es, t) && i < 8
    ensures var nh := NextOf(es, t);
      Restore(Squeezed(e, nh) + Chain(es, t), mem, i) != Some(Whole(e, nh) + Original(es, Relengthened(t)))
  {
    var nh, c, o := NextOf(es, t), Chain(es, t), Original(es, Relengthened(t));
    var s := Squeezed(e, nh) + c;
    SqueezedFirst(e, nh);
    DispatchFacts(e.kind, Compressible(nh));
    assert FirstOf(s, mem) == s[0];
    hide *;
    HopByHopZero(e.kind);
    PlainRestored(s, mem, i);
    if Compressible(nh) {
      FirstDiffers(s, e, nh, o);
    } else {
      EndsPlain(es, t);
      RelengthenedFacts(es, t);
      WholeLength(e, nh);
    }
  }

  lemma HopByHopZero(k: Kind)
    requires k.HopByHop?
    ensures Number(k) == 0
  {}

  /** A next header that is carried in-line is overwritten. */
  lemma InlineLost(e: Ext, nh: bv8, c: seq<byte>, mem: byte, i: nat, o: seq<byte>)
    requires IsExt(e) && !e.kind.HopByHop? && !Compressible(nh)
    ensures Restore(Squeezed(e, nh) + c, mem, i) != Some(Whole(e, nh) + o)
  {
    var s := Squeezed(e, nh) + c;
    SqueezedFirst(e, nh);
    DispatchFacts(e.kind, false);
    assert FirstOf(s, mem) == s[0];
    hide *;
    NamesCompressible(s, mem, i);
    var r := Restore(s, mem, i);
    if r.Some? { FirstDiffers(r.value, e, nh, o); }
  }

  lemma OptionsTooLongLost(e: Ext, nh: bv8, c: seq<byte>, mem: byte, i: nat, o: seq<byte>)
    requires IsExt(e) && e.kind.DestOptions? && Num(e.rest[0].bits) > 31 && Compressible(nh) && i < 8
    ensures Restore(Squeezed(e, nh) + c, mem, i) != Some(Whole(e, nh) + o)
  {
    var s, w := Squeezed(e, nh) + c, Whole(e, nh);
    hide *;
    OptionsTooLong(e, nh, c, 0);
    RestoreStep(s, mem, i);
    if Restore(s, mem, i) == Some(w + o) {
      ReadableFacts(s);
      var rest := s[Takes(s)..];
      OptionsTooLong(e, nh, c, FirstOf(rest, mem).bits);
      ExtLength(e);
      WholeLength(e, nh);
      WholeAt(e, nh, 1);
      SecondOf(Expanded(s, FirstOf(rest, mem).bits), w, Restore(rest, mem, i + 1).value, o);
      assert false;
    }
  }

  lemma CancelSome<T>(x: seq<T>, w: seq<T>, r: Option<seq<T>>, o: seq<T>)
    requires |x| == |w|
    ensures (if r.None? then None else Some(x + r.value)) == Some(w + o) <==> x == w && r == Some(o)
  {
    if r.Some? && x + r.value == w + o { Cancel(x, w, r.value, o); }
  }

  /** Short destination options and fragment headers: all depends on the header and what follows it. */
  lemma ExtExactly(e: Ext, nh: bv8, c: seq<byte>, mem: byte, i: nat, o: seq<byte>)
    requires IsExt(e) && Compressible(nh) && i < 8 && c != [] && Retrieve(c[0].bits) == nh
    requires e.kind.Fragment? || (e.kind.DestOptions? && Num(e.rest[0].bits) <= 31)
    ensures Restore(Squeezed(e, nh) + c, mem, i) == Some(Whole(e, nh) + o) <==> ExtSurvives(e, c[0]) && Restore(c, mem, i + 1) == Some(o)
  {
    var s, w := Squeezed(e, nh) + c, Whole(e, nh);
    assert FirstOf(c, mem) == c[0];
    hide FirstOf, Restore, Squeezed, Whole, Expanded, Readable, Takes, Retrieve, Compressible, Num, Bits8, IsExt, LooksExtension, Echoes;
    if e.kind.Fragment? { FragmentShifted(e, nh, c); SevenBytes(e); } else { OptionsBack(e, nh, c); }
    RestoreStep(s, mem, i);
    WholeLength(e, nh);
    CancelSome(Expanded(s, c[0].bits), w, Restore(c, mem, i + 1), o);
  }

  lemma LooksNotCompressible(b: bv8)
    requires LooksExtension(b)
    ensures !Compressible(b)
  {}

  lemma UdpTailExactly(u: Udp, data: seq<byte>, mem: byte, i: nat)
    requires i < 7
    ensures Restore(UdpInline(u) + data, mem, i) == Some(WithLength(u, |data| + UDP_HEADER) + data) <==> !PortsClash(u)
  {
    var s := UdpInline(u) + data;
    UdpRoundTrip(u, data);
    UdpFirst(u);
    DispatchBits(UdpMode(u));
    hide UdpInline, UdpMode, UdpDispatch, PortsClash, UdpOut, UdpTaken, WithLength;
    assert FirstOf(s, mem) == s[0] && LooksUdp(s[0].bits);
    assert s[UdpTaken(s[0].bits)..] == data;
    UdpOutLength(s);
    hide LooksUdp, LooksExtension;
    CancelSome(UdpOut(s), WithLength(u, |data| + UDP_HEADER), Some(data), data);
  }

  lemma PlainTailExactly(payload: seq<byte>, mem: byte, i: nat)
    requires i < 8
    ensures Restore(payload, mem, i) == Some(payload) <==> var b := FirstOf(payload, mem).bits; !LooksUdp(b) && !LooksExtension(b)
  {
    var b := FirstOf(payload, mem).bits;
    if LooksExtension(b) {
      LooksNotCompressible(b);
      NamesCompressible(payload, mem, i);
    } else if LooksUdp(b) && payload != [] && UdpTaken(b) <= |payload| {
      UdpLonger(payload);
    }
    hide LooksUdp, LooksExtension, Compressible, UdpTaken, UdpOut, Readable, Takes, Expanded;
  }

  lemma TailExactly(t: Tail, mem: byte, i: nat)
    requires i + (if t.UdpTail? then 1 else 0) < 8
    ensures Restore(TailSqueezed(t), mem, i) == Some(TailBytes(Relengthened(t))) <==> TailSurvives(t, mem)
  {
    hide Restore, UdpInline, WithLength, PortsClash, LooksUdp, LooksExtension;
    match t
    case UdpTail(u, data) => UdpTailExactly(u, data, mem, i);
    case Other(_, payload) => PlainTailExactly(payload, mem, i);
  }

  lemma SurvivesStep(es: Exts, t: Tail, mem: byte)
    requires IsChain(es, t) && es != []
    ensures IsExt(es[0]) && IsChain(es[1..], t)
    ensures Survives(es, t, mem) <==>
      Compressible(NextOf(es[1..], t)) && ExtSurvives(es[0], FirstOf(Chain(es[1..], t), mem)) && Survives(es[1..], t, mem)
    ensures ExtSurvives(es[0], FirstOf(Chain(es[1..], t), mem)) ==>
      es[0].kind.Fragment? || (es[0].kind.DestOptions? && Num(es[0].rest[0].bits) <= 31)
  {
    hide Compressible, NextOf, Chain, Num, Bits8, FirstOf;
  }

  /** A chain comes back exactly if every header in it does. */
  lemma {:induction false} ChainExactly(es: Exts, t: Tail, mem: byte, i: nat)
    requires IsChain(es, t) && i + |es| + (if t.UdpTail? then 1 else 0) < 8
    ensures Restore(Chain(es, t), mem, i) == Some(Original(es, Relengthened(t))) <==> Survives(es, t, mem)
    decreases |es|
  {
    hide *;
    if es == [] {
      TailExactly(t, mem, i);
      NoExtension(t, mem);
    } else {
      var rest := es[1..];
      SurvivesStep(es, t, mem);
      ChainIs(es, t);
      RelengthenedFacts(es, t);
      RelengthenedFacts(rest, t);
      ChainIs(es, Relengthened(t));
      ChainExactly(rest, t, mem, i + 1);
      StepExactly(es[0], rest, t, mem, i);
    }
  }

  lemma NoExtension(t: Tail, mem: byte)
    requires IsChain([], t)
    ensures Chain([], t) == TailSqueezed(t) && Original([], Relengthened(t)) == TailBytes(Relengthened(t))
    ensures Survives([], t, mem) <==> TailSurvives(t, mem)
  {
    hide TailSurvives, TailSqueezed, TailBytes, Relengthened;
  }

  lemma StepExactly(e: Ext, es: Exts, t: Tail, mem: byte, i: nat)
    requires IsExt(e) && IsChain(es, t) && i < 8
    ensures var nh, c, o := NextOf(es, t), Chain(es, t), Original(es, Relengthened(t));
      Restore(Squeezed(e, nh) + c, mem, i) == Some(Whole(e, nh) + o) <==>
      Compressible(nh) && ExtSurvives(e, FirstOf(c, mem)) && Restore(c, mem, i + 1) == Some(o)
  {
    var nh, c, o := NextOf(es, t), Chain(es, t), Original(es, Relengthened(t));
    hide IsExt, IsChain, NextOf, Chain, Original, Relengthened, Squeezed, Whole, Restore, Compressible, Num, Bits8, Retrieve, Echoes;
    if e.kind.HopByHop? {
      HopByHopLost(e, es, t, mem, i);
    } else if !Compressible(nh) {
      InlineLost(e, nh, c, mem, i, o);
    } else {
      ChainStart(es, t);
      ExtLength(e);
      if e.kind.Routing? {
        RoutingLost(e, es, t, mem, i);
      } else if e.kind.DestOptions? && Num(e.rest[0].bits) > 31 {
        OptionsTooLongLost(e, nh, c, mem, i, o);
      } else {
        ExtExactly(e, nh, c, mem, i, o);
      }
    }
  }

  // ----- Whole frames -----

  /** The frame for header `h` and the chain behind it. */
  function Frame(h: Ip6, ls: Link, ld: Link, es: Exts, t: Tail): seq<byte>
    requires IsChain(es, t)
  {
    Compressed(h, ls, ld) + Chain(es, t)
  }

  /** The pieces fit the room that both sides have for them. */
  predicate FitsPieces(es: Exts, t: Tail) { 1 + |es| + (if t.UdpTail? then 1 else 0) < 8 }

  lemma FrameIs(h: Ip6, ls: Link, ld: Link, mem: byte, next: seq<byte>)
    requires Version6(h[0].bits) && Restorable(Src(h), Dst(h), ls, ld)
    requires Compressible(h[6].bits) ==> Retrieve(FirstOf(next, mem).bits) == h[6].bits
    ensures var s := Compressed(h, ls, ld) + next; |s| >= 2 && Taken(s) <= |s|
    ensures var s, r := Compressed(h, ls, ld) + next, Restore(next, mem, 1);
      DecompressFrame(s, ls, ld, mem) == if r.None? then None else Some(Finalize(h + r.value))
  {
    HeaderBack(h, ls, ld, next);
    var nh, r := Retrieve(FirstOf(next, mem).bits), Restore(next, mem, 1);
    hide Restorable, Version6, Compressed, Decodes, HeaderUpto, At, Bare, Finish, Finalize, Restore, Retrieve, Compressible;
    if r.Some? { FinishBare(h, nh, r.value); }
  }

  lemma FinalizeExactly(h: Ip6, a: seq<byte>, b: seq<byte>)
    ensures Finalize(h + a) == Finalize(h + b) <==> a == b
  {
    hide High, Low;
    assert Finalize(h + a)[40..] == a && Finalize(h + b)[40..] == b;
  }

  lemma NextInFrame(es: Exts, t: Tail, mem: byte)
    requires IsChain(es, t) && Compressible(NextOf(es, t))
    ensures Retrieve(FirstOf(Chain(es, t), mem).bits) == NextOf(es, t)
  {
    ChainStart(es, t);
    hide Chain, Retrieve, NextOf, Compressible;
  }

  /** MAIN RESULT for frames.  A datagram with a restorable header comes back from its frame, with the lengths
      that its own bytes give, exactly if the chain of headers behind it survives. */
  lemma FrameExactly(h: Ip6, ls: Link, ld: Link, es: Exts, t: Tail, mem: byte)
    requires Version6(h[0].bits) && Restorable(Src(h), Dst(h), ls, ld)
    requires IsChain(es, t) && FitsPieces(es, t) && h[6].bits == NextOf(es, t)
    ensures var s := Frame(h, ls, ld, es, t);
      && |s| >= 2 && Taken(s) <= |s|
      && (DecompressFrame(s, ls, ld, mem) == Some(Finalize(h + Original(es, Relengthened(t)))) <==> Survives(es, t, mem))
  {
    var c, o := Chain(es, t), Original(es, Relengthened(t));
    ChainExactly(es, t, mem, 1);
    hide Version6, Restorable, IsChain, NextOf, Chain, Original, Relengthened, Survives, DecompressFrame, Restore, Retrieve,
      Compressible, Compressed, Taken, Finalize;
    if Compressible(h[6].bits) { NextInFrame(es, t, mem); }
    FrameIs(h, ls, ld, mem, c);
    var r := Restore(c, mem, 1);
    if r.Some? { FinalizeExactly(h, r.value, o); }
  }

  predicate AllSurvive(es: Exts, t: Tail, mem: byte)
    requires IsChain(es, t)
  {
    forall k :: 0 <= k < |es| ==> ExtSurvives(es[k], FirstOf(Chain(es[k + 1..], t), mem))
  }

  lemma AllSurviveStep(es: Exts, t: Tail, mem: byte)
    requires IsChain(es, t) && es != []
    ensures IsExt(es[0]) && IsChain(es[1..], t)
    ensures AllSurvive(es, t, mem) <==> ExtSurvives(es[0], FirstOf(Chain(es[1..], t), mem)) && AllSurvive(es[1..], t, mem)
  {
    var rest := es[1..];
    hide ExtSurvives, Chain, IsExt, FirstOf;
    forall k | 0 <= k < |rest| ensures rest[k] == es[k + 1] && rest[k + 1..] == es[k + 1 + 1..] {}
    if AllSurvive(es, t, mem) {
      forall k | 0 <= k < |rest| ensures ExtSurvives(rest[k], FirstOf(Chain(rest[k + 1..], t), mem)) {
        assert ExtSurvives(es[k + 1], FirstOf(Chain(es[k + 1 + 1..], t), mem));
      }
    }
    if ExtSurvives(es[0], FirstOf(Chain(es[1..], t), mem)) && AllSurvive(rest, t, mem) {
      forall k | 0 <= k < |es| ensures ExtSurvives(es[k], FirstOf(Chain(es[k + 1..], t), mem)) {
        if k > 0 { assert rest[k - 1] == es[k] && rest[k - 1 + 1..] == es[k + 1..]; }
      }
    }
  }

  /** With extension headers, what survives is exactly: destination options of up to 256 bytes, fragment headers
      that happen to repeat the byte behind them, and in the end UDP without a port clash. */
  lemma {:induction false} SurvivesExactly(es: Exts, t: Tail, mem: byte)
    requires IsChain(es, t) && es != []
    ensures Survives(es, t, mem) <==> t.UdpTail? && !PortsClash(t.u) && AllSurvive(es, t, mem)
    decreases |es|
  {
    SurvivesStep(es, t, mem);
    AllSurviveStep(es, t, mem);
    var rest := es[1..];
    if rest == [] {
      assert AllSurvive(rest, t, mem);
      hide PortsClash, LooksUdp, LooksExtension;
    } else {
      hide Survives, AllSurvive, PortsClash, ExtSurvives, Chain, IsExt;
      SurvivesExactly(rest, t, mem);
    }
  }

  /** A payload without a compressed form of its own comes back exactly if its first byte, or the one behind an
      empty one, does not look like one. */
  lemma PlainFrameRoundTrip(h: Ip6, ls: Link, ld: Link, payload: seq<byte>, mem: byte)
    requires Version6(h[0].bits) && Restorable(Src(h), Dst(h), ls, ld) && !Compressible(h[6].bits)
    ensures var s, b := PlainFrame(h, ls, ld, payload), FirstOf(payload, mem).bits;
      && |s| >= 2 && Taken(s) <= |s|
      && (DecompressFrame(s, ls, ld, mem) == Some(Finalize(h + payload)) <==> !LooksUdp(b) && !LooksExtension(b))
  {
    FrameExactly(h, ls, ld, [], Other(h[6].bits, payload), mem);
    hide Version6, Restorable, Compressible, DecompressFrame, Finalize, Taken, Compressed, LooksUdp, LooksExtension;
  }

  /** A UDP datagram comes back, with the UDP length that the frame gives, exactly if its ports do not clash. */
  lemma UdpFrameRoundTrip(h: Ip6, ls: Link, ld: Link, u: Udp, data: seq<byte>, mem: byte)
    requires Version6(h[0].bits) && Restorable(Src(h), Dst(h), ls, ld) && h[6].bits == UDP
    ensures var s := UdpFrame(h, ls, ld, u, data);
      && |s| >= 2 && Taken(s) <= |s|
      && (DecompressFrame(s, ls, ld, mem) == Some(Finalize(h + (WithLength(u, |data| + UDP_HEADER) + data))) <==> !PortsClash(u))
  {
    FrameExactly(h, ls, ld, [], UdpTail(u, data), mem);
    hide Version6, Restorable, DecompressFrame, Finalize, Taken, Compressed, PortsClash, UdpInline, WithLength;
  }

  // ----- The two loops -----

  /** `ext_hdr_len`: the bytes of the extension header at the start of `d`. */
  function HeaderSize(nh: bv8, d: seq<byte>): nat
    requires |d| >= 2
  {
    if nh == 44 then 8 else 8 * Num(d[1].bits) + 8
  }

  function DispatchOf(nh: bv8, elided: bool): bv8 {
    0xE0 | (if nh == 0 then 0x00 else if nh == 43 then 0x02 else if nh == 44 then 0x04 else 0x06) | if elided then 0x01 else 0x00
  }

  function SqueezedBytes(nh: bv8, e: seq<byte>): seq<byte>
    requires |e| >= 2
  {
    (if Compressible(e[0].bits) then [Byte(DispatchOf(nh, true))] else [Byte(DispatchOf(nh, false)), e[0]]) +
    (if nh == 44 then e[1..] else [Octet((|e| - 2) % 256)] + e[2..])
  }

  lemma DispatchSame(k: Kind, elided: bool)
    ensures DispatchOf(Number(k), elided) == ExtDispatch(k, elided) && (Number(k) == 44 <==> k.Fragment?)
  {}

  lemma WholeRest(e: Ext, nh: bv8)
    requires |e.rest| >= 1
    ensures var w := Whole(e, nh); w[0] == Byte(nh) && w[1..] == e.rest && w[2..] == e.rest[1..]
  {}

  lemma SqueezedSame(e: Ext, nh: bv8)
    requires IsExt(e)
    ensures |Whole(e, nh)| >= 2 && SqueezedBytes(Number(e.kind), Whole(e, nh)) == Squeezed(e, nh)
  {
    DispatchSame(e.kind, Compressible(nh));
    WholeLength(e, nh);
    WholeRest(e, nh);
    hide Octet, Compressible, Num, DispatchOf, ExtDispatch, Number, Whole;
  }

  lemma SizeIs(e: Ext, nh: bv8, o: seq<byte>)
    requires IsExt(e)
    ensures HeaderSize(Number(e.kind), Whole(e, nh) + o) == |Whole(e, nh)| >= 8
  {
    assert (Whole(e, nh) + o)[1] == e.rest[0];
    hide Num;
  }

  /** The next header of a datagram is an extension header. */
  lemma ExtNext(es: Exts, t: Tail, d: seq<byte>)
    requires IsChain(es, t) && Compressible(NextOf(es, t)) && NextOf(es, t) != UDP && d == Original(es, t)
    ensures es != [] && |d| >= 8 && IsChain(es[1..], t)
    ensures var n, nh := HeaderSize(NextOf(es, t), d), NextOf(es[1..], t);
      && 8 <= n <= |d| && d[0].bits == nh && d[n..] == Original(es[1..], t)
      && SqueezedBytes(NextOf(es, t), d[..n]) + Chain(es[1..], t) == Chain(es, t)
  {
    assert es != [];
    var nh, o := NextOf(es[1..], t), Original(es[1..], t);
    hide *;
    ChainIs(es, t);
    SizeIs(es[0], nh, o);
    SqueezedSame(es[0], nh);
    WholeFirst(es[0], nh);
    FirstPart(Whole(es[0], nh), o);
  }

  lemma FirstPart<T>(a: seq<T>, b: seq<T>)
    ensures (a + b)[..|a|] == a && (a + b)[|a|..] == b && (|a| > 0 ==> (a + b)[0] == a[0])
  {}

  /** It is UDP. */
  lemma UdpNext(es: Exts, t: Tail)
    requires IsChain(es, t) && NextOf(es, t) == UDP
    ensures es == [] && t.UdpTail? && Original(es, t) == t.u + t.data && Chain(es, t) == UdpInline(t.u) + t.data
  {
    hide UdpInline;
  }

  /** The loop of `pico_iphc_compress` behind the IPv6 header. */
  method CompressHeaders(first: bv8, d: seq<byte>, ghost es: Exts, ghost t: Tail) returns (out: seq<byte>)
    requires IsChain(es, t) && FitsPieces(es, t) && first == NextOf(es, t) && d == Original(es, t)
    ensures out == Chain(es, t)
  {
    hide *;
    var nh, left, i, loop := first, d, 1, true;
    out := [];
    ghost var rest := es;
    assert out + Chain(es, t) == Chain(es, t);
    while Compressible(nh) && loop && i < 8
      invariant i <= 8 && IsChain(rest, t)
      invariant loop ==> nh == NextOf(rest, t) && left == Original(rest, t) && out + Chain(rest, t) == Chain(es, t) && i + |rest| == 1 + |es|
      invariant !loop ==> out + left == Chain(es, t)
      decreases 8 - i
    {
      if nh == UDP {
        UdpNext(rest, t);
        FirstPart(t.u, t.data);
        Assoc(out, UdpInline(t.u), t.data);
        out, left, loop := out + UdpInline(left[..8]), left[8..], false;
      } else {
        ExtNext(rest, t, left);
        var n := HeaderSize(nh, left);
        Assoc(out, SqueezedBytes(nh, left[..n]), Chain(rest[1..], t));
        nh, left, out := left[0].bits, left[n..], out + SqueezedBytes(nh, left[..n]);
        rest := rest[1..];
      }
      i := i + 1;
    }
    if loop { PiecesLeft(rest, es, t, i); }
    out := out + left;
  }

  /** The loop ends where nothing can be compressed, for there is room for all pieces. */
  lemma PiecesLeft(rest: Exts, es: Exts, t: Tail, i: nat)
    requires IsChain(rest, t) && FitsPieces(es, t) && i + |rest| == 1 + |es| && (!Compressible(NextOf(rest, t)) || i >= 8)
    ensures Chain(rest, t) == Original(rest, t)
  {
    EndsPlain(rest, t);
    hide Chain, Original;
  }

  function Behind(out: seq<byte>, r: Option<seq<byte>>): Option<seq<byte>> {
    if r.None? then None else Some(out + r.value)
  }

  lemma BehindNothing(r: Option<seq<byte>>)
    ensures Behind([], r) == r
  {
    if r.Some? { assert [] + r.value == r.value; }
  }

  lemma BehindBehind(a: seq<byte>, b: seq<byte>, r: Option<seq<byte>>)
    ensures Behind(a, Behind(b, r)) == Behind(a + b, r)
  {
    if r.Some? { Assoc(a, b, r.value); }
  }

  lemma RestoreCases(s: seq<byte>, mem: byte, i: nat)
    requires i < 8
    ensures Retrieve(FirstOf(s, mem).bits) == 0 ==> Restore(s, mem, i) == Some(s)
    ensures Retrieve(FirstOf(s, mem).bits) == UDP ==>
      if s == [] || UdpTaken(s[0].bits) > |s| || i == 7 then Restore(s, mem, i) == None
      else Restore(s, mem, i) == Some(UdpOut(s) + s[UdpTaken(s[0].bits)..])
    ensures Retrieve(FirstOf(s, mem).bits) !in {0, UDP} ==>
      if s == [] || !Readable(s) then Restore(s, mem, i) == None
      else Restore(s, mem, i) == Behind(Expanded(s, FirstOf(s[Takes(s)..], mem).bits), Restore(s[Takes(s)..], mem, i + 1))
  {
    RetrieveFacts(FirstOf(s, mem).bits);
    LooksApart(FirstOf(s, mem).bits);
    RetrieveRange(FirstOf(s, mem).bits);
    hide Retrieve, LooksUdp, LooksExtension, UdpTaken, UdpOut, Readable, Takes, Expanded;
  }

  lemma RetrieveRange(b: bv8)
    ensures Retrieve(b) == 0 || Retrieve(b) == 43 || Retrieve(b) == 44 || Retrieve(b) == 60 || Retrieve(b) == UDP
  {}

  lemma NoRoomLeft(s: seq<byte>, mem: byte, i: nat)
    requires i >= 8
    ensures Restore(s, mem, i) == None
  {}

  /** The loop of `pico_iphc_decompress` behind the IPv6 header. */
  method DecompressHeaders(s: seq<byte>, mem: byte) returns (r: Option<seq<byte>>)
    ensures r == Restore(s, mem, 1)
  {
    hide Restore, Retrieve, Readable, Expanded, UdpOut, UdpTaken, FirstOf, Takes;
    var left, i, out, dispatch := s, 1, [], Retrieve(FirstOf(s, mem).bits);
    BehindNothing(Restore(s, mem, 1));
    while dispatch != 0 && i < 8
      invariant 1 <= i <= 8 && dispatch == Retrieve(FirstOf(left, mem).bits)
      invariant Restore(s, mem, 1) == Behind(out, Restore(left, mem, i))
      decreases 8 - i
    {
      RestoreCases(left, mem, i);
      if left == [] { return None; }
      if dispatch == UDP {
        var n := UdpTaken(left[0].bits);
        if n > |left| || i == 7 { return None; }
        return Some(out + (UdpOut(left) + left[n..]));
      }
      if !Readable(left) { return None; }
      ReadableFacts(left);
      var rest := left[Takes(left)..];
      var next := FirstOf(rest, mem).bits;
      BehindBehind(out, Expanded(left, next), Restore(rest, mem, i + 1));
      out, left, i, dispatch := out + Expanded(left, next), rest, i + 1, Retrieve(next);
    }
    if i == 8 {
      NoRoomLeft(left, mem, i);
      return None;
    }
    RestoreCases(left, mem, i);
    return Some(out + left);
  }
}
