/**
 6LoWPAN end to end: an IPv6 datagram is compressed, cut into fragments, and the fragments reach
 the other side in any order and among other traffic.
 */
module LowpanEndToEnd {
  import opened Bytes
  import opened LowpanIphc
  import opened LowpanHeader
  import opened LowpanFrame
  import opened LowpanFrag
  import opened LowpanDefrag
  import opened LowpanReassembly
  import opened LowpanSend
  import LowpanChain
  import opened Sequences

  /** A compressed frame that holds its header. */
  predicate Modelled(s: seq<byte>) {
    |s| >= 2 && s[0].bits & 0xE0 == 0x60 && Taken(s) <= |s|
  }

  /** `defrag` up to the reassembly table: the fragment header is read and removed, and a first
      fragment is decompressed.  The byte `mem` lies behind the frame in memory. */
  function Receive(frame: seq<byte>, at: nat, src: nat, dst: nat, ls: Link, ld: Link, mem: byte): Option<Event> {
    if IsFirst(frame) then
      if |frame| < 4 || !Modelled(frame[4..]) then None
      else match DecompressFrame(frame[4..], ls, ld, mem)
        case None => None
        case Some(d) => Some(Fragment(at, Key(SizeOf(frame), TagOf(frame), src, dst), 0, d))
    else if IsNext(frame) && |frame| >= 5 then
      Some(Fragment(at, Key(SizeOf(frame), TagOf(frame), src, dst), OffsetOf(frame), frame[5..]))
    else None
  }

  /** The cuts, as positions in the uncompressed datagram. */
  function Shift(cuts: seq<nat>, diff: nat): (r: seq<nat>)
    ensures |r| == |cuts|
    ensures forall i :: 0 <= i < |r| ==> r[i] == if i == 0 then cuts[0] else cuts[i] + diff
  {
    seq(|cuts|, i requires 0 <= i < |cuts| => if i == 0 then cuts[0] else cuts[i] + diff)
  }

  lemma ShiftSplits(cuts: seq<nat>, len: nat, diff: nat)
    requires Cuts(cuts, len, diff)
    ensures Split(Shift(cuts, diff), len + diff)
  {
    var r := Shift(cuts, diff);
    forall i | 0 <= i < |r| - 1 ensures r[i] < r[i + 1] {
      assert cuts[i] < cuts[i + 1];
    }
  }

  /** The frame `f` that is sent stands for datagram `e`: its first `c` bytes decompress to the
      beginning of `e`, but for the payload length, and from there on the two are the same. */
  ghost predicate StandsFor(f: seq<byte>, e: seq<byte>, c: nat, ls: Link, ld: Link, mem: byte) {
    && c <= |f| <= |e| && IP6_HEADER <= c + (|e| - |f|)
    && Modelled(f[..c])
    && DecompressFrame(f[..c], ls, ld, mem) == Some(Finalize(e[..c + (|e| - |f|)]))
    && f[c..] == e[c + (|e| - |f|)..]
  }

  /** What the pieces add up to before the payload length is put right. */
  function Pieced(e: seq<byte>, c: nat): seq<byte>
    requires IP6_HEADER <= c <= |e|
  {
    Finalize(e[..c]) + e[c..]
  }

  lemma PiecedFinal(e: seq<byte>, c: nat)
    requires IP6_HEADER <= c <= |e|
    ensures |Pieced(e, c)| == |e| && Finalize(Pieced(e, c)) == Finalize(e)
  {
    hide High, Low;
  }

  lemma FirstReceived(f: seq<byte>, e: seq<byte>, tag: nat, cuts: seq<nat>, at: nat, src: nat, dst: nat, ls: Link, ld: Link, mem: byte)
    requires |f| <= |e| < 2048 && tag < 65536 && Cuts(cuts, |f|, |e| - |f|) && StandsFor(f, e, cuts[1], ls, ld, mem)
    ensures Receive(FragmentAt(f, |e|, tag, cuts, 0), at, src, dst, ls, ld, mem) ==
      Some(Fragment(at, Key(|e|, tag, src, dst), 0, Finalize(e[..cuts[1] + (|e| - |f|)])))
  {
    var data := f[..cuts[1]];
    assert Chunk(f, cuts, 0) == data;
    HeaderRoundTrip(|e|, tag, 0, data);
    FirstLength(|e|, tag, data);
    hide FirstFragment, NextFragment, SizeOf, TagOf, OffsetOf, IsFirst, IsNext, DecompressFrame, Modelled, Finalize, Cuts;
  }

  lemma NextReceived(f: seq<byte>, e: seq<byte>, tag: nat, cuts: seq<nat>, j: nat, at: nat, src: nat, dst: nat, ls: Link, ld: Link, mem: byte)
    requires |f| <= |e| < 2048 && tag < 65536 && Cuts(cuts, |f|, |e| - |f|) && 1 <= j < |cuts| - 1
    ensures Receive(FragmentAt(f, |e|, tag, cuts, j), at, src, dst, ls, ld, mem) ==
      Some(Fragment(at, Key(|e|, tag, src, dst), cuts[j] + (|e| - |f|), Chunk(f, cuts, j)))
  {
    var off := (cuts[j] + (|e| - |f|)) / 8;
    assert off < 256 && 8 * off == cuts[j] + (|e| - |f|);
    HeaderRoundTrip(|e|, tag, off, Chunk(f, cuts, j));
    NextLength(|e|, tag, off, Chunk(f, cuts, j));
    hide FirstFragment, NextFragment, SizeOf, TagOf, OffsetOf, IsFirst, IsNext, DecompressFrame, Modelled, Finalize, Cuts, Chunk;
  }

  /** The event is what the other side makes of fragment `j` of `f`, or for negative `j` an event of
      another datagram. */
  ghost predicate Arrival(ev: Event, f: seq<byte>, size: nat, tag: nat, cuts: seq<nat>, src: nat, dst: nat,
                          ls: Link, ld: Link, mem: byte, j: int)
    requires |f| <= size
  {
    if j < 0 then ev.Fragment? ==> ev.key != Key(size, tag, src, dst)
    else j + 1 < |cuts| && Receive(FragmentAt(f, size, tag, cuts, j), ev.at, src, dst, ls, ld, mem) == Some(ev)
  }

  ghost predicate Arrivals(evs: seq<Event>, f: seq<byte>, size: nat, tag: nat, cuts: seq<nat>, src: nat, dst: nat,
                           ls: Link, ld: Link, mem: byte, which: seq<int>)
    requires |f| <= size
  {
    |which| == |evs| && forall i :: 0 <= i < |evs| ==> Arrival(evs[i], f, size, tag, cuts, src, dst, ls, ld, mem, which[i])
  }

  lemma LaterPiece<T>(head: seq<T>, f: seq<T>, e: seq<T>, c: nat, diff: nat, from: nat, to: nat)
    requires c <= from <= to <= |f| && c + diff <= |e| && |head| == c + diff && f[c..] == e[c + diff..]
    ensures to + diff <= |head + e[c + diff..]| && (head + e[c + diff..])[from + diff..to + diff] == f[from..to]
  {
    var tail := e[c + diff..];
    assert (head + tail)[|head|..] == tail;
    SliceOfTail(head + tail, |head|, from - c, to - c);
    SliceOfTail(f, c, from - c, to - c);
  }

  lemma FirstPiece<T>(head: seq<T>, tail: seq<T>)
    ensures (head + tail)[..|head|] == head
  {}

  lemma CutsAround(cuts: seq<nat>, len: nat, diff: nat, j: nat)
    requires Cuts(cuts, len, diff) && j < |cuts| - 1
    ensures cuts[j] < cuts[j + 1] <= len && (j > 0 ==> cuts[1] <= cuts[j])
  {
    if j + 1 < |cuts| - 1 { Ordered(cuts, j + 1, |cuts| - 1); }
    if j > 1 { Ordered(cuts, 1, j); }
  }

  lemma PieceOf(f: seq<byte>, e: seq<byte>, cuts: seq<nat>, j: nat, ls: Link, ld: Link, mem: byte)
    requires |f| <= |e| && Cuts(cuts, |f|, |e| - |f|) && StandsFor(f, e, cuts[1], ls, ld, mem) && j < |cuts| - 1
    ensures var diff := |e| - |f|; var whole := Pieced(e, cuts[1] + diff);
      Chunk(whole, Shift(cuts, diff), j) == if j == 0 then Finalize(e[..cuts[1] + diff]) else Chunk(f, cuts, j)
  {
    hide Pieced, Cuts, StandsFor, Finalize, Shift;
    var c, diff := cuts[1], |e| - |f|;
    CutsAround(cuts, |f|, diff, j);
    StandsParts(f, e, c, ls, ld, mem);
    var head, tail := Finalize(e[..c + diff]), e[c + diff..];
    assert |Shift(cuts, diff)| == |cuts|;
    if j == 0 {
      CutsFromZero(cuts, |f|, diff);
      FirstPiece(head, tail);
    } else {
      LaterPiece(head, f, e, c, diff, cuts[j], cuts[j + 1]);
    }
  }

  lemma CutsFromZero(cuts: seq<nat>, len: nat, diff: nat)
    requires Cuts(cuts, len, diff)
    ensures cuts[0] == 0
  {}

  lemma StandsParts(f: seq<byte>, e: seq<byte>, c: nat, ls: Link, ld: Link, mem: byte)
    requires StandsFor(f, e, c, ls, ld, mem)
    ensures c <= |f| <= |e| && IP6_HEADER <= c + (|e| - |f|) <= |e| && f[c..] == e[c + (|e| - |f|)..]
    ensures |Finalize(e[..c + (|e| - |f|)])| == c + (|e| - |f|)
    ensures Pieced(e, c + (|e| - |f|)) == Finalize(e[..c + (|e| - |f|)]) + e[c + (|e| - |f|)..]
  {
    hide DecompressFrame, Modelled, High, Low;
  }

  lemma OneLabelled(ev: Event, f: seq<byte>, e: seq<byte>, tag: nat, cuts: seq<nat>, src: nat, dst: nat, ls: Link, ld: Link, mem: byte, j: int)
    requires |f| <= |e| < 2048 && tag < 65536 && Cuts(cuts, |f|, |e| - |f|) && StandsFor(f, e, cuts[1], ls, ld, mem)
    requires Arrival(ev, f, |e|, tag, cuts, src, dst, ls, ld, mem, j)
    ensures var diff := |e| - |f|;
      Labelled(ev, Key(|e|, tag, src, dst), Pieced(e, cuts[1] + diff), Shift(cuts, diff), j)
  {
    var diff := |e| - |f|;
    var whole, r := Pieced(e, cuts[1] + diff), Shift(cuts, diff);
    assert cuts[0] == 0;
    hide Receive, FragmentAt, StandsFor, Pieced, Chunk, Finalize, Cuts, Shift;
    if j == 0 {
      PieceOf(f, e, cuts, 0, ls, ld, mem);
      FirstReceived(f, e, tag, cuts, ev.at, src, dst, ls, ld, mem);
    } else if j > 0 {
      PieceOf(f, e, cuts, j, ls, ld, mem);
      NextReceived(f, e, tag, cuts, j, ev.at, src, dst, ls, ld, mem);
    }
  }

  lemma ArrivalsLabelled(evs: seq<Event>, f: seq<byte>, e: seq<byte>, tag: nat, cuts: seq<nat>, src: nat, dst: nat,
                         ls: Link, ld: Link, mem: byte, which: seq<int>)
    requires |f| <= |e| < 2048 && tag < 65536 && Cuts(cuts, |f|, |e| - |f|) && StandsFor(f, e, cuts[1], ls, ld, mem)
    requires Arrivals(evs, f, |e|, tag, cuts, src, dst, ls, ld, mem, which)
    ensures var diff := |e| - |f|;
      Labels(evs, Key(|e|, tag, src, dst), Pieced(e, cuts[1] + diff), Shift(cuts, diff), which)
  {
    assert |cuts| >= 3;
    hide Arrival, Labelled, StandsFor, Cuts, Pieced, Shift;
    StandsBounds(f, e, cuts[1], ls, ld, mem);
    forall i | 0 <= i < |evs|
      ensures Labelled(evs[i], Key(|e|, tag, src, dst), Pieced(e, cuts[1] + (|e| - |f|)), Shift(cuts, |e| - |f|), which[i])
    {
      OneLabelled(evs[i], f, e, tag, cuts, src, dst, ls, ld, mem, which[i]);
    }
  }

  lemma StandsBounds(f: seq<byte>, e: seq<byte>, c: nat, ls: Link, ld: Link, mem: byte)
    requires StandsFor(f, e, c, ls, ld, mem)
    ensures IP6_HEADER <= c + (|e| - |f|) <= |e|
  {
    hide DecompressFrame, Modelled, Finalize;
  }

  /** Frame `f` for a datagram of `size` bytes has been cut at `cuts`, and the events of a run from table `t`
      on are what the other side makes of its fragments, among other events, without a time-out. */
  ghost predicate Crossing(f: seq<byte>, size: nat, tag: nat, cuts: seq<nat>, src: nat, dst: nat, ls: Link, ld: Link, mem: byte,
                           t: Table, evs: seq<Event>, which: seq<int>) {
    && |f| <= size < 2048 && tag < 65536 && |cuts| >= 3 && Cuts(cuts, |f|, size - |f|)
    && Valid(t) && Key(size, tag, src, dst) !in t && AllSound(evs) && |which| == |evs|
    && Arrivals(evs, f, size, tag, cuts, src, dst, ls, ld, mem, which) && InTime(evs, which, |cuts| - 1)
  }

  /** Such events are a run in the sense of the reassembly theorems. */
  lemma CrossingRun(f: seq<byte>, e: seq<byte>, tag: nat, cuts: seq<nat>, src: nat, dst: nat, ls: Link, ld: Link, mem: byte,
                    t: Table, evs: seq<Event>, which: seq<int>)
    requires Crossing(f, |e|, tag, cuts, src, dst, ls, ld, mem, t, evs, which) && StandsFor(f, e, cuts[1], ls, ld, mem)
    ensures IP6_HEADER <= cuts[1] + (|e| - |f|) <= |e|
    ensures RunOf(t, evs, Key(|e|, tag, src, dst), Pieced(e, cuts[1] + (|e| - |f|)), Shift(cuts, |e| - |f|), which)
  {
    hide StandsFor, Cuts, Valid, AllSound, Arrivals, InTime, Pieced, Shift, RunOf, Labels, Split, Increasing;
    var diff := |e| - |f|;
    StandsBounds(f, e, cuts[1], ls, ld, mem);
    ArrivalsLabelled(evs, f, e, tag, cuts, src, dst, ls, ld, mem, which);
    ShiftSplits(cuts, |f|, diff);
    PiecedFinal(e, cuts[1] + diff);
    RunIntro(t, evs, Key(|e|, tag, src, dst), Pieced(e, cuts[1] + diff), Shift(cuts, diff), which);
  }

  /** Any frame that stands for a datagram carries it across. */
  lemma CarriedAcross(f: seq<byte>, e: seq<byte>, tag: nat, cuts: seq<nat>, src: nat, dst: nat, ls: Link, ld: Link, mem: byte,
                      t: Table, evs: seq<Event>, which: seq<int>, n: nat)
    requires Crossing(f, |e|, tag, cuts, src, dst, ls, ld, mem, t, evs, which) && StandsFor(f, e, cuts[1], ls, ld, mem)
    requires Once(which) && n <= |evs| && IP6_HEADER <= |e|
    ensures Out(t, evs, Key(|e|, tag, src, dst), n) == if All(Got(which, n), |cuts| - 1) then [Finalize(e)] else []
  {
    hide *;
    CrossingFacts(f, |e|, tag, cuts, src, dst, ls, ld, mem, t, evs, which);
    var c := cuts[1] + (|e| - |f|);
    CrossingRun(f, e, tag, cuts, src, dst, ls, ld, mem, t, evs, which);
    PiecedFinal(e, c);
    ReassemblesInAnyOrder(t, evs, Key(|e|, tag, src, dst), Pieced(e, c), Shift(cuts, |e| - |f|), which, n);
  }

  lemma CrossingFacts(f: seq<byte>, size: nat, tag: nat, cuts: seq<nat>, src: nat, dst: nat, ls: Link, ld: Link, mem: byte,
                      t: Table, evs: seq<Event>, which: seq<int>)
    requires Crossing(f, size, tag, cuts, src, dst, ls, ld, mem, t, evs, which)
    ensures |f| <= size < 2048 && |cuts| >= 3 && Valid(t) && AllSound(evs) && |which| == |evs| && Cuts(cuts, |f|, size - |f|)
  {
    hide Cuts, Valid, AllSound, Arrivals, InTime;
  }

  /** With repeated fragments, nothing is handed up early exactly as long as the bytes of datagram that the
      fragments stand for are fewer than it has while a fragment is missing. */
  lemma RepeatsAcross(f: seq<byte>, e: seq<byte>, tag: nat, cuts: seq<nat>, src: nat, dst: nat, ls: Link, ld: Link, mem: byte,
                      t: Table, evs: seq<Event>, which: seq<int>, n: nat)
    requires Crossing(f, |e|, tag, cuts, src, dst, ls, ld, mem, t, evs, which) && StandsFor(f, e, cuts[1], ls, ld, mem) && n <= |evs|
    ensures NothingEarly(t, evs, Key(|e|, tag, src, dst), Shift(cuts, |e| - |f|), which, n) <==>
      CountStaysBelow(Shift(cuts, |e| - |f|), which, |e|, n)
  {
    hide *;
    CrossingFacts(f, |e|, tag, cuts, src, dst, ls, ld, mem, t, evs, which);
    var c := cuts[1] + (|e| - |f|);
    CrossingRun(f, e, tag, cuts, src, dst, ls, ld, mem, t, evs, which);
    PiecedFinal(e, c);
    EarlyExactly(t, evs, Key(|e|, tag, src, dst), Pieced(e, c), Shift(cuts, |e| - |f|), which, n);
  }

  // ----- What is sent -----

  lemma FirstByteDispatch(h: Ip6)
    ensures Byte0(h) & 0xE0 == 0x60
  {
    FirstByte(TfBits(h[0].bits, h[1].bits, h[2].bits, h[3].bits), NhBits(h[6].bits), HlBits(h[7].bits));
    hide PutTf, PutNh, PutHl, Ecn, Dscp, Label;
  }

  lemma CutAfter<T>(hc: seq<T>, h: seq<T>, payload: seq<T>, m: nat)
    requires m <= |payload|
    ensures (hc + payload)[..|hc| + m] == hc + payload[..m] && (h + payload)[..|h| + m] == h + payload[..m]
    ensures (hc + payload)[|hc| + m..] == payload[m..] == (h + payload)[|h| + m..]
  {}

  lemma PlainFirst(h: Ip6, ls: Link, ld: Link, mem: byte, rest: seq<byte>)
    requires Version6(h[0].bits) && Restorable(Src(h), Dst(h), ls, ld) && !Compressible(h[6].bits)
    requires !LooksExtension(FirstOf(rest, mem).bits) && !LooksUdp(FirstOf(rest, mem).bits)
    ensures Modelled(PlainFrame(h, ls, ld, rest)) && DecompressFrame(PlainFrame(h, ls, ld, rest), ls, ld, mem) == Some(Finalize(h + rest))
  {
    hide DecompressFrame, Compressed, Finalize, Restorable, Version6, Compressible, LooksExtension, LooksUdp, Taken, Tail, Byte0;
    FirstByteDispatch(h);
    CompressedTail(h, ls, ld, rest);
    LowpanChain.PlainFrameRoundTrip(h, ls, ld, rest, mem);
  }

  /** What the decompressor finds behind the header of a frame that is cut at `c`. */
  function Behind(h: Ip6, ls: Link, ld: Link, payload: seq<byte>, c: nat, mem: byte): byte {
    if c <= |Compressed(h, ls, ld)| || payload == [] then mem else payload[0]
  }

  /** The frame of a datagram whose payload is taken for nothing else stands for the datagram, wherever
      after the header it is cut. */
  lemma PlainStands(h: Ip6, ls: Link, ld: Link, mem: byte, payload: seq<byte>, c: nat)
    requires Version6(h[0].bits) && Restorable(Src(h), Dst(h), ls, ld) && !Compressible(h[6].bits)
    requires var b := Behind(h, ls, ld, payload, c, mem).bits; !LooksExtension(b) && !LooksUdp(b)
    requires |Compressed(h, ls, ld)| <= c <= |PlainFrame(h, ls, ld, payload)|
    ensures StandsFor(PlainFrame(h, ls, ld, payload), h + payload, c, ls, ld, mem)
  {
    hide DecompressFrame, Modelled, Compressed, Finalize, Restorable, Version6, Compressible, LooksExtension, LooksUdp;
    var m := c - |Compressed(h, ls, ld)|;
    NotLonger(h, ls, ld);
    PlainFirst(h, ls, ld, mem, payload[..m]);
    CutAfter(Compressed(h, ls, ld), h, payload, m);
  }

  /** A UDP header and its data, as the frame carries them and as the datagram does. */
  lemma UdpFirst(h: Ip6, ls: Link, ld: Link, mem: byte, u: Udp, data: seq<byte>)
    requires Version6(h[0].bits) && Restorable(Src(h), Dst(h), ls, ld) && h[6].bits == UDP && !PortsClash(u)
    ensures Modelled(UdpFrame(h, ls, ld, u, data))
    ensures DecompressFrame(UdpFrame(h, ls, ld, u, data), ls, ld, mem) == Some(Finalize(h + (WithLength(u, |data| + UDP_HEADER) + data)))
  {
    hide DecompressFrame, Compressed, Finalize, Restorable, Version6, LooksExtension, Taken, Tail, Byte0, PortsClash, UdpInline, WithLength;
    FirstByteDispatch(h);
    CompressedTail(h, ls, ld, UdpInline(u) + data);
    LowpanChain.UdpFrameRoundTrip(h, ls, ld, u, data, mem);
  }

  /** The frame of a UDP datagram stands for it, but that the UDP length is the one its first piece
      alone would have. */
  lemma UdpStands(h: Ip6, ls: Link, ld: Link, mem: byte, u: Udp, data: seq<byte>, c: nat)
    requires Version6(h[0].bits) && Restorable(Src(h), Dst(h), ls, ld) && h[6].bits == UDP && !PortsClash(u)
    requires |Compressed(h, ls, ld)| + |UdpInline(u)| <= c <= |UdpFrame(h, ls, ld, u, data)|
    ensures var m := c - |Compressed(h, ls, ld)| - |UdpInline(u)|;
      StandsFor(UdpFrame(h, ls, ld, u, data), h + (WithLength(u, m + 8) + data), c, ls, ld, mem)
  {
    hide DecompressFrame, Modelled, Compressed, Finalize, Restorable, Version6, PortsClash, UdpInline;
    var hc, uc := Compressed(h, ls, ld), UdpInline(u);
    var m := c - |hc| - |uc|;
    var v := WithLength(u, m + 8);
    NotLonger(h, ls, ld);
    assert |uc| <= 8 by { InlineBytes(u); }
    UdpFirst(h, ls, ld, mem, u, data[..m]);
    hide WithLength;
    CutAfter(hc + uc, h + v, data, m);
    Assoc(hc, uc, data);
    Assoc(h, v, data);
    Assoc(hc, uc, data[..m]);
    Assoc(h, v, data[..m]);
  }

  // ----- End to end -----

  predicate LengthRight(h: Ip6, n: nat) { h[4] == High(n) && h[5] == Low(n) }

  lemma HeaderIs40()
    ensures IP6_HEADER == 40
  {}

  lemma FinalizeRight(h: Ip6, payload: seq<byte>)
    requires LengthRight(h, |payload|)
    ensures Finalize(h + payload) == h + payload
  {
    hide High, Low;
  }

  /** MAIN RESULT.  A datagram whose header is restorable is compressed, cut behind the header and sent.
      Whatever the order in which its fragments arrive, it is handed up once all have arrived, not before,
      and byte for byte as it was sent. */
  lemma EndToEnd(h: Ip6, payload: seq<byte>, tag: nat, cuts: seq<nat>, src: nat, dst: nat, ls: Link, ld: Link, mem: byte,
                 t: Table, evs: seq<Event>, which: seq<int>, n: nat)
    requires Version6(h[0].bits) && Restorable(Src(h), Dst(h), ls, ld) && !Compressible(h[6].bits) && LengthRight(h, |payload|)
    requires Crossing(PlainFrame(h, ls, ld, payload), 40 + |payload|, tag, cuts, src, dst, ls, ld, mem, t, evs, which)
    requires |Compressed(h, ls, ld)| <= cuts[1] && Once(which) && n <= |evs|
    requires var b := Behind(h, ls, ld, payload, cuts[1], mem).bits; !LooksExtension(b) && !LooksUdp(b)
    ensures Out(t, evs, Key(40 + |payload|, tag, src, dst), n) == if All(Got(which, n), |cuts| - 1) then [h + payload] else []
  {
    hide *;
    HeaderIs40();
    var f := PlainFrame(h, ls, ld, payload);
    CrossingFacts(f, 40 + |payload|, tag, cuts, src, dst, ls, ld, mem, t, evs, which);
    CutsBelow(cuts, |f|, 40 + |payload| - |f|);
    PlainStands(h, ls, ld, mem, payload, cuts[1]);
    FinalizeRight(h, payload);
    CarriedAcross(f, h + payload, tag, cuts, src, dst, ls, ld, mem, t, evs, which, n);
  }

  lemma CutsBelow(cuts: seq<nat>, len: nat, diff: nat)
    requires |cuts| >= 3 && Cuts(cuts, len, diff)
    ensures cuts[1] < len
  {
    Ordered(cuts, 1, |cuts| - 1);
  }

  /** The UDP length that a frame cut at `c` gives: the one of its first piece alone. */
  function FirstUdpLength(h: Ip6, ls: Link, ld: Link, u: Udp, c: nat): nat
    requires |Compressed(h, ls, ld)| + |UdpInline(u)| <= c
  {
    c - |Compressed(h, ls, ld)| - |UdpInline(u)| + 8
  }

  /** For UDP the datagram handed up differs from the one sent in at most the UDP length, and is the one sent
      exactly if that had the length of the first fragment. */
  lemma EndToEndUdp(h: Ip6, u: Udp, data: seq<byte>, tag: nat, cuts: seq<nat>, src: nat, dst: nat, ls: Link, ld: Link, mem: byte,
                    t: Table, evs: seq<Event>, which: seq<int>, n: nat)
    requires Version6(h[0].bits) && Restorable(Src(h), Dst(h), ls, ld) && h[6].bits == UDP && LengthRight(h, 8 + |data|)
    requires !PortsClash(u) && Crossing(UdpFrame(h, ls, ld, u, data), 48 + |data|, tag, cuts, src, dst, ls, ld, mem, t, evs, which)
    requires |Compressed(h, ls, ld)| <= cuts[1] && Once(which) && n <= |evs|
    ensures |Compressed(h, ls, ld)| + |UdpInline(u)| <= cuts[1]
    ensures var back := h + (WithLength(u, FirstUdpLength(h, ls, ld, u, cuts[1])) + data);
      && Out(t, evs, Key(48 + |data|, tag, src, dst), n) == (if All(Got(which, n), |cuts| - 1) then [back] else [])
      && (back == h + (u + data) <==> u == WithLength(u, FirstUdpLength(h, ls, ld, u, cuts[1])))
  {
    hide *;
    HeaderIs40();
    var f := UdpFrame(h, ls, ld, u, data);
    CrossingFacts(f, 48 + |data|, tag, cuts, src, dst, ls, ld, mem, t, evs, which);
    UdpCut(h, ls, ld, u, data, cuts);
    var first := FirstUdpLength(h, ls, ld, u, cuts[1]);
    UdpStands(h, ls, ld, mem, u, data, cuts[1]);
    var e := WithLength(u, first) + data;
    assert |e| == 8 + |data|;
    FinalizeRight(h, e);
    CarriedAcross(f, h + e, tag, cuts, src, dst, ls, ld, mem, t, evs, which, n);
    PartsEqual(h, WithLength(u, first), data, h, u, data);
    Assoc(h, WithLength(u, first), data);
    Assoc(h, u, data);
  }

  lemma UdpCut(h: Ip6, ls: Link, ld: Link, u: Udp, data: seq<byte>, cuts: seq<nat>)
    requires |cuts| >= 3 && |UdpFrame(h, ls, ld, u, data)| <= 48 + |data|
    requires Cuts(cuts, |UdpFrame(h, ls, ld, u, data)|, 48 + |data| - |UdpFrame(h, ls, ld, u, data)|)
    requires |Compressed(h, ls, ld)| <= cuts[1]
    ensures |Compressed(h, ls, ld)| + |UdpInline(u)| <= cuts[1] < |UdpFrame(h, ls, ld, u, data)|
    ensures FirstUdpLength(h, ls, ld, u, cuts[1]) == cuts[1] - |Compressed(h, ls, ld)| - |UdpInline(u)| + 8 < 8 + |data|
  {
    var f := UdpFrame(h, ls, ld, u, data);
    hide Compressed, UdpInline, Cuts;
    UdpLengths(u);
    CutsBelow(cuts, |f|, 48 + |data| - |f|);
    CutBehindUdp(cuts, |f|, |Compressed(h, ls, ld)|, |UdpInline(u)|);
  }

  /** So a UDP datagram that carries the right UDP length and needs fragments never comes back as it was sent. */
  lemma UdpLengthLost(h: Ip6, u: Udp, data: seq<byte>, tag: nat, cuts: seq<nat>, src: nat, dst: nat, ls: Link, ld: Link, mem: byte,
                      t: Table, evs: seq<Event>, which: seq<int>, n: nat)
    requires Version6(h[0].bits) && Restorable(Src(h), Dst(h), ls, ld) && h[6].bits == UDP && LengthRight(h, 8 + |data|)
    requires !PortsClash(u) && Crossing(UdpFrame(h, ls, ld, u, data), 48 + |data|, tag, cuts, src, dst, ls, ld, mem, t, evs, which)
    requires |Compressed(h, ls, ld)| <= cuts[1] && Once(which) && n <= |evs| && u == WithLength(u, 8 + |data|)
    ensures Out(t, evs, Key(48 + |data|, tag, src, dst), n) != [h + (u + data)]
  {
    hide *;
    var f := UdpFrame(h, ls, ld, u, data);
    CrossingFacts(f, 48 + |data|, tag, cuts, src, dst, ls, ld, mem, t, evs, which);
    UdpCut(h, ls, ld, u, data, cuts);
    var first := FirstUdpLength(h, ls, ld, u, cuts[1]);
    EndToEndUdp(h, u, data, tag, cuts, src, dst, ls, ld, mem, t, evs, which, n);
    LengthsDiffer(u, first, 8 + |data|);
  }

  lemma LengthsDiffer(u: Udp, m: nat, n: nat)
    requires m < n < 65536 && u == WithLength(u, n)
    ensures u != WithLength(u, m)
  {
    hide Bits8, Num;
    JoinSplit(m);
    JoinSplit(n);
    hide High, Low, Join;
    assert WithLength(u, m)[4] == High(m) && WithLength(u, m)[5] == Low(m);
    assert u[4] == High(n) && u[5] == Low(n);
  }

  // ----- Both sides together -----

  /** `order` names each of `m` fragments once. */
  ghost predicate AnyOrder(order: seq<int>, m: nat) {
    Once(order) && All(Got(order, |order|), m) && forall i :: 0 <= i < |order| ==> 0 <= order[i] < m
  }

  /** What fragment `j` becomes on arrival. */
  ghost function Arrived(f: seq<byte>, e: seq<byte>, tag: nat, cuts: seq<nat>, src: nat, dst: nat, j: nat): Event
    requires |f| <= |e| && j + 1 < |cuts| && cuts[1] + (|e| - |f|) <= |e| && IP6_HEADER <= cuts[1] + (|e| - |f|)
  {
    if j == 0 then Fragment(0, Key(|e|, tag, src, dst), 0, Finalize(e[..cuts[1] + (|e| - |f|)]))
    else Fragment(0, Key(|e|, tag, src, dst), cuts[j] + (|e| - |f|), Chunk(f, cuts, j))
  }

  lemma ArrivedSound(f: seq<byte>, e: seq<byte>, tag: nat, cuts: seq<nat>, src: nat, dst: nat, ls: Link, ld: Link, mem: byte, j: nat)
    requires |f| <= |e| < 2048 && tag < 65536 && Cuts(cuts, |f|, |e| - |f|) && j + 1 < |cuts|
    requires StandsFor(f, e, cuts[1], ls, ld, mem) && IP6_HEADER <= cuts[1] + (|e| - |f|) <= |e|
    ensures Sound(Arrived(f, e, tag, cuts, src, dst, j))
    ensures Receive(FragmentAt(f, |e|, tag, cuts, j), 0, src, dst, ls, ld, mem) == Some(Arrived(f, e, tag, cuts, src, dst, j))
  {
    CutsAround(cuts, |f|, |e| - |f|, j);
    assert |Finalize(e[..cuts[1] + (|e| - |f|)])| == cuts[1] + (|e| - |f|);
    if j == 0 {
      FirstReceived(f, e, tag, cuts, 0, src, dst, ls, ld, mem);
    } else {
      assert |Chunk(f, cuts, j)| == cuts[j + 1] - cuts[j];
      NextReceived(f, e, tag, cuts, j, 0, src, dst, ls, ld, mem);
    }
    hide Receive, FragmentAt, StandsFor, Finalize, Cuts, Chunk;
  }

  ghost function ArrivedAll(f: seq<byte>, e: seq<byte>, tag: nat, cuts: seq<nat>, src: nat, dst: nat, order: seq<int>): (evs: seq<Event>)
    requires |f| <= |e| && |cuts| >= 3 && IP6_HEADER <= cuts[1] + (|e| - |f|) <= |e|
    requires forall i :: 0 <= i < |order| ==> 0 <= order[i] < |cuts| - 1
    ensures |evs| == |order| && forall i :: 0 <= i < |order| ==> evs[i] == Arrived(f, e, tag, cuts, src, dst, order[i])
  {
    seq(|order|, i requires 0 <= i < |order| => Arrived(f, e, tag, cuts, src, dst, order[i]))
  }

  lemma ArrivedAllFits(f: seq<byte>, e: seq<byte>, tag: nat, cuts: seq<nat>, src: nat, dst: nat, ls: Link, ld: Link, mem: byte, order: seq<int>)
    requires |f| <= |e| < 2048 && tag < 65536 && |cuts| >= 3 && Cuts(cuts, |f|, |e| - |f|)
    requires StandsFor(f, e, cuts[1], ls, ld, mem) && IP6_HEADER <= cuts[1] + (|e| - |f|) <= |e|
    requires forall i :: 0 <= i < |order| ==> 0 <= order[i] < |cuts| - 1
    ensures var evs := ArrivedAll(f, e, tag, cuts, src, dst, order);
      AllSound(evs) && Arrivals(evs, f, |e|, tag, cuts, src, dst, ls, ld, mem, order) && InTime(evs, order, |cuts| - 1)
  {
    var evs := ArrivedAll(f, e, tag, cuts, src, dst, order);
    hide Receive, FragmentAt, StandsFor, Finalize, Cuts, Chunk, ArrivedAll, Sound;
    forall i | 0 <= i < |order| ensures Sound(evs[i]) && Arrival(evs[i], f, |e|, tag, cuts, src, dst, ls, ld, mem, order[i]) && evs[i].Fragment? {
      ArrivedSound(f, e, tag, cuts, src, dst, ls, ld, mem, order[i]);
    }
  }

  /** Hands the fragments to the receiver in the given order: it hands up exactly the datagram. */
  method Deliver(frags: seq<seq<byte>>, order: seq<int>, src: nat, dst: nat, ls: Link, ld: Link, mem: byte,
                 ghost f: seq<byte>, ghost e: seq<byte>, ghost tag: nat, ghost cuts: seq<nat>)
    returns (received: seq<seq<byte>>)
    requires |f| <= |e| < 2048 && tag < 65536 && |cuts| >= 3 && Cuts(cuts, |f|, |e| - |f|) && StandsFor(f, e, cuts[1], ls, ld, mem)
    requires |frags| == |cuts| - 1 && AnyOrder(order, |frags|)
    requires forall i :: 0 <= i < |frags| ==> frags[i] == FragmentAt(f, |e|, tag, cuts, i)
    ensures IP6_HEADER <= |e| && received == [Finalize(e)]
  {
    hide Receive, FragmentAt, StandsFor, Finalize, Cuts, Arrivals, Next, Handed, Valid, AllSound, InTime, Arrived, All, Got, Once, Crossing;
    StandsBounds(f, e, cuts[1], ls, ld, mem);
    ghost var k, evs := Key(|e|, tag, src, dst), ArrivedAll(f, e, tag, cuts, src, dst, order);
    ArrivedAllFits(f, e, tag, cuts, src, dst, ls, ld, mem, order);
    hide ArrivedAll;
    var receiver := new Reassembly();
    received := [];
    EmptyTable();
    for i := 0 to |order|
      invariant fresh(receiver) && receiver.table == After(map[], evs, i) && Valid(receiver.table)
      invariant received == Out(map[], evs, k, i)
    {
      ArrivedSound(f, e, tag, cuts, src, dst, ls, ld, mem, order[i]);
      ArrivedIs(f, e, tag, cuts, src, dst, order[i]);
      AfterNext(map[], evs, k, i);
      var ev := Receive(frags[order[i]], 0, src, dst, ls, ld, mem);
      var out := receiver.Defrag(ev.value);
      received := received + out;
    }
    CrossingIntro(f, |e|, tag, cuts, src, dst, ls, ld, mem, evs, order);
    CarriedAcross(f, e, tag, cuts, src, dst, ls, ld, mem, map[], evs, order, |order|);
  }

  lemma CrossingIntro(f: seq<byte>, size: nat, tag: nat, cuts: seq<nat>, src: nat, dst: nat, ls: Link, ld: Link, mem: byte,
                      evs: seq<Event>, which: seq<int>)
    requires |f| <= size < 2048 && tag < 65536 && |cuts| >= 3 && Cuts(cuts, |f|, size - |f|) && AllSound(evs) && |which| == |evs|
    requires Arrivals(evs, f, size, tag, cuts, src, dst, ls, ld, mem, which) && InTime(evs, which, |cuts| - 1)
    ensures Crossing(f, size, tag, cuts, src, dst, ls, ld, mem, map[], evs, which)
  {
    EmptyTable();
  }

  lemma EmptyTable()
    ensures Valid(map[])
  {}

  lemma ArrivedIs(f: seq<byte>, e: seq<byte>, tag: nat, cuts: seq<nat>, src: nat, dst: nat, j: nat)
    requires |f| <= |e| && j + 1 < |cuts| && cuts[1] + (|e| - |f|) <= |e| && IP6_HEADER <= cuts[1] + (|e| - |f|)
    ensures var ev := Arrived(f, e, tag, cuts, src, dst, j); ev.Fragment? && ev.key == Key(|e|, tag, src, dst)
  {}

  /** Sends a datagram and receives its fragments in the order that `order` gives for their number: exactly
      the datagram is handed up. */
  method Transfer(h: Ip6, payload: seq<byte>, tag: nat, avail: nat, ls: Link, ld: Link, mem: byte, src: nat, dst: nat,
                  order: nat -> seq<int>) returns (received: seq<seq<byte>>)
    requires Version6(h[0].bits) && Restorable(Src(h), Dst(h), ls, ld) && !Compressible(h[6].bits) && LengthRight(h, |payload|)
    requires 40 + |payload| < 2048 && tag < 65536 && 13 <= avail && !Uncompressible(h, ls, ld)
    requires var c := |Compressed(h, ls, ld)|; c + FRAG1_SIZE <= avail < c + |payload|
    requires !LooksExtension(payload[0].bits) && !LooksUdp(payload[0].bits) && !LooksExtension(mem.bits) && !LooksUdp(mem.bits)
    requires forall m :: AnyOrder(order(m), m)
    ensures received == [h + payload]
  {
    hide Version6, Restorable, Compressible, Compressed, LooksExtension, LooksUdp, AnyOrder, Cuts, FragmentAt, StandsFor, LengthRight, Uncompressible;
    var sent, cuts := SendDatagram(h, payload, tag, avail, ls, ld);
    ghost var f := PlainFrame(h, ls, ld, payload);
    CutsBelow(cuts, |f|, 40 + |payload| - |f|);
    PlainStands(h, ls, ld, mem, payload, cuts[1]);
    FinalizeRight(h, payload);
    received := Deliver(sent.value, order(|sent.value|), src, dst, ls, ld, mem, f, h + payload, tag, cuts);
  }
}
