/**
 The sending side of 6LoWPAN fragmentation (section 5.3 of RFC 4944): a compressed datagram
 is cut into a first and any number of further fragments.  Sizes and offsets in the fragment
 headers count bytes of the uncompressed datagram.
 */
module LowpanFrag {
  import opened Bytes

  const FRAG1_SIZE := 4
  const FRAGN_SIZE := 5

  // ----- Fragment headers -----

  function Head(dispatch: bv8, size: nat): byte {
    Byte(dispatch | (High(size).bits & 0x07))
  }

  function FirstFragment(size: nat, tag: nat, data: seq<byte>): seq<byte> {
    [Head(0xC0, size), Low(size), High(tag), Low(tag)] + data
  }

  function NextFragment(size: nat, tag: nat, off: nat, data: seq<byte>): seq<byte> {
    [Head(0xE0, size), Low(size), High(tag), Low(tag), Byte(Bits8(off))] + data
  }

  /** What `defrag_remove_header` reads back. */
  function SizeOf(frame: seq<byte>): nat
    requires |frame| >= 2
  {
    Join(frame[0].bits & 0x07, frame[1].bits)
  }

  function TagOf(frame: seq<byte>): nat
    requires |frame| >= 4
  {
    Join(frame[2].bits, frame[3].bits)
  }

  function OffsetOf(frame: seq<byte>): nat
    requires |frame| >= 5
  {
    8 * Num(frame[4].bits)
  }

  predicate IsFirst(frame: seq<byte>) {
    |frame| >= 1 && frame[0].bits & 0xF8 == 0xC0
  }

  predicate IsNext(frame: seq<byte>) {
    |frame| >= 1 && frame[0].bits & 0xF8 == 0xE0
  }

  lemma HeadBits(hi: bv8)
    ensures (0xC0 | (hi & 0x07)) & 0xF8 == 0xC0 && (0xC0 | (hi & 0x07)) & 0x07 == hi & 0x07
    ensures (0xE0 | (hi & 0x07)) & 0xF8 == 0xE0 && (0xE0 | (hi & 0x07)) & 0x07 == hi & 0x07
    ensures hi < 8 ==> hi & 0x07 == hi
  {}

  lemma SizeRoundTrip(size: nat)
    requires size < 2048
    ensures High(size).bits & 0x07 == High(size).bits
  {
    assert Num(8) == 8;
    hide Bits8, Num;
    Value8(size / 256 % 256);
    Below8(High(size).bits, 8);
    HeadBits(High(size).bits);
  }

  /** The receiver reads exactly the header fields the sender wrote. */
  lemma HeaderRoundTrip(size: nat, tag: nat, off: nat, data: seq<byte>)
    requires size < 2048 && tag < 65536 && off < 256
    ensures var f := FirstFragment(size, tag, data);
      IsFirst(f) && !IsNext(f) && SizeOf(f) == size && TagOf(f) == tag && f[4..] == data
    ensures var f := NextFragment(size, tag, off, data);
      IsNext(f) && !IsFirst(f) && SizeOf(f) == size && TagOf(f) == tag && OffsetOf(f) == 8 * off && f[5..] == data
  {
    hide Bits8, Num, High, Low, Join;
    HeadBits(High(size).bits);
    SizeRoundTrip(size);
    JoinSplit(size);
    JoinSplit(tag);
    Value8(off);
  }

  // ----- Where the cuts go -----

  function U16(x: int): nat { x % 65536 }

  function U8(x: int): nat { x % 256 }

  /** Bytes of the uncompressed datagram the first fragment stands for, in units of eight,
      when `diff` bytes of header have been elided. */
  function FirstUnits(avail: nat, diff: nat): nat
    requires avail + diff >= FRAG1_SIZE
  {
    (avail + diff - FRAG1_SIZE) / 8
  }

  /** The whole compressed header goes into the first fragment. */
  predicate HeaderFits(avail: nat, diff: nat, hlen: nat) {
    avail + diff >= FRAG1_SIZE && hlen + diff <= 8 * FirstUnits(avail, diff)
  }

  /** `frag_1st_comp`, with the 16- and 8-bit arithmetic of the source. */
  method FirstCut(len: nat, size: nat, avail: nat, hlen: nat) returns (off: nat, copy: nat)
    requires hlen <= avail < len <= size < 2048 && FRAG1_SIZE <= avail + (size - len)
    ensures off == FirstUnits(avail, size - len) < 256
    ensures HeaderFits(avail, size - len, hlen) <==> hlen <= copy <= avail - FRAG1_SIZE
    ensures HeaderFits(avail, size - len, hlen) ==> copy == 8 * off - (size - len)
  {
    hide U16, U8;
    ghost var diff := size - len;
    Fits16(diff);
    Fits16(hlen + diff);
    var compDiff := U16(size - len);
    var decoHlen := U16(hlen + compDiff);
    var rest := U16(avail - FRAG1_SIZE - hlen);
    Wrap(avail - FRAG1_SIZE - hlen, decoHlen);
    Fits16(avail - FRAG1_SIZE + diff);
    Fits8(FirstUnits(avail, diff));
    off := U8(U16(rest + decoHlen) / 8);
    Fits16(off * 8);
    rest := U16(U16(off * 8) - decoHlen);
    Wrap(off * 8 - decoHlen, hlen);
    if off * 8 >= diff { Fits16(off * 8 - diff); } else { Borrow(off * 8 - diff); }
    copy := U16(rest + hlen);
  }

  lemma Fits16(x: int)
    requires 0 <= x < 65536
    ensures U16(x) == x
  {}

  lemma Borrow(x: int)
    requires -65536 <= x < 0
    ensures U16(x) == x + 65536
  {}

  lemma Fits8(x: int)
    requires 0 <= x < 256
    ensures U8(x) == x
  {}

  lemma Wrap(x: int, y: int)
    ensures U16(U16(x) + y) == U16(x + y)
  {}

  // ----- The run of fragments -----

  /** Bytes of compressed frame that a further fragment carries when more follow. */
  function Step(avail: nat): nat
    requires avail >= FRAGN_SIZE
  {
    (avail - FRAGN_SIZE) / 8 * 8
  }

  /** Below 13 bytes of link payload a further fragment that is not the last one carries nothing,
      so the source repeats it for ever; from 13 on it always makes progress. */
  lemma ProgressFrom13(avail: nat)
    requires avail >= FRAGN_SIZE
    ensures Step(avail) > 0 <==> avail >= 13
  {}

  /** The fragmentation cookie of a frame `f` that stands for a datagram of `size` bytes. */
  class Cookie {
    const f: seq<byte>
    const size: nat
    const tag: nat
    var off: nat
    var copied: nat

    /** Holds before every further fragment. */
    ghost predicate Valid()
      reads this
    {
      && |f| <= size < 2048 && tag < 65536
      && 0 < copied < |f|
      && 8 * off == copied + (size - |f|)
    }

    constructor (f: seq<byte>, size: nat, tag: nat, off: nat, copied: nat)
      ensures this.f == f && this.size == size && this.tag == tag && this.off == off && this.copied == copied
    {
      this.f, this.size, this.tag, this.off, this.copied := f, size, tag, off, copied;
    }

    /** `frag_nth` and `frag_update` for a link with `avail` bytes of payload. */
    method Next(avail: nat) returns (frag: seq<byte>, done: bool)
      requires Valid() && FRAGN_SIZE <= avail < |f|
      modifies this
      ensures copied <= |f| && copied == (if old(|f| - copied) <= avail - FRAGN_SIZE then |f| else old(copied) + Step(avail))
      ensures old(off) < 256 && frag == NextFragment(size, tag, old(off), f[old(copied)..copied])
      ensures |frag| <= avail
      ensures done <==> copied == |f|
      ensures !done ==> Valid()
    {
      hide U16, U8, NextFragment;
      Fits16(|f| - copied);
      Fits16(avail - FRAGN_SIZE);
      var left := U16(|f| - copied);
      var units, copy := 0, left;
      if left > U16(avail - FRAGN_SIZE) {
        Fits8((avail - FRAGN_SIZE) / 8);
        units := U8(U16(avail - FRAGN_SIZE) / 8);
        Fits16(units * 8);
        copy := U16(units * 8);
      }
      frag := NextFragment(size, tag, off, f[copied..copied + copy]);
      NextLength(size, tag, off, f[copied..copied + copy]);
      Fits16(copied + copy);
      copied := U16(copied + copy);
      if copied < |f| {
        Fits8(off + units);
      }
      off := U8(off + units);
      done := copied >= |f|;
    }
  }

  lemma NextLength(size: nat, tag: nat, off: nat, data: seq<byte>)
    ensures |NextFragment(size, tag, off, data)| == FRAGN_SIZE + |data|
  {}

  predicate Increasing(cuts: seq<nat>) {
    forall i :: 0 <= i < |cuts| - 1 ==> cuts[i] < cuts[i + 1]
  }

  predicate Aligned(cuts: seq<nat>, diff: nat, n: nat) {
    forall i :: 1 <= i < n && i < |cuts| ==> (cuts[i] + diff) % 8 == 0 && (cuts[i] + diff) / 8 < 256
  }

  /** Positions in the compressed frame at which it is cut, first and last included. */
  predicate Cuts(cuts: seq<nat>, len: nat, diff: nat) {
    && |cuts| >= 3 && cuts[0] == 0 && cuts[|cuts| - 1] == len
    && Increasing(cuts) && Aligned(cuts, diff, |cuts| - 1)
  }

  lemma {:induction false} Ordered(cuts: seq<nat>, i: nat, j: nat)
    requires Increasing(cuts) && i < j < |cuts|
    ensures cuts[i] < cuts[j]
    decreases j
  {
    if i < j - 1 { Ordered(cuts, i, j - 1); }
    assert cuts[j - 1] < cuts[j - 1 + 1];
  }

  /** What fragment `i` carries. */
  function Chunk<T>(f: seq<T>, cuts: seq<nat>, i: nat): seq<T>
    requires i + 1 < |cuts|
  {
    if cuts[i] <= cuts[i + 1] <= |f| then f[cuts[i]..cuts[i + 1]] else []
  }

  /** The fragment between cut `i` and the next. */
  function FragmentAt(f: seq<byte>, size: nat, tag: nat, cuts: seq<nat>, i: nat): seq<byte>
    requires |f| <= size && i + 1 < |cuts|
  {
    if i == 0 then FirstFragment(size, tag, Chunk(f, cuts, 0))
    else NextFragment(size, tag, (cuts[i] + (size - |f|)) / 8, Chunk(f, cuts, i))
  }

  /** The fragments sent so far are those between the cuts made so far. */
  ghost predicate Sent(f: seq<byte>, size: nat, tag: nat, avail: nat, frags: seq<seq<byte>>, cuts: seq<nat>) {
    && |f| <= size && |cuts| == |frags| + 1 >= 2 && cuts[0] == 0
    && Increasing(cuts) && Aligned(cuts, size - |f|, |cuts| - 1)
    && forall i :: 0 <= i < |frags| ==> frags[i] == FragmentAt(f, size, tag, cuts, i) && |frags[i]| <= avail
  }

  lemma SentOne(f: seq<byte>, size: nat, tag: nat, avail: nat, copy: nat)
    requires 0 < copy <= |f| <= size && FRAG1_SIZE + copy <= avail
    ensures Sent(f, size, tag, avail, [FirstFragment(size, tag, f[..copy])], [0, copy])
  {}

  lemma SentMore(f: seq<byte>, size: nat, tag: nat, avail: nat, frags: seq<seq<byte>>, cuts: seq<nat>,
                 off: nat, next: nat)
    requires Sent(f, size, tag, avail, frags, cuts)
    requires cuts[|cuts| - 1] < next <= |f| && next - cuts[|cuts| - 1] <= avail - FRAGN_SIZE
    requires 8 * off == cuts[|cuts| - 1] + (size - |f|) && off < 256
    ensures var frag := NextFragment(size, tag, off, f[cuts[|cuts| - 1]..next]);
      Sent(f, size, tag, avail, frags + [frag], cuts + [next])
  {
    hide FirstFragment, NextFragment;
    var n := |frags|;
    var frag := NextFragment(size, tag, off, f[cuts[n]..next]);
    var cuts', frags' := cuts + [next], frags + [frag];
    NextLength(size, tag, off, f[cuts[n]..next]);
    assert Chunk(f, cuts', n) == f[cuts[n]..next];
    forall i | 0 <= i < |frags'| ensures frags'[i] == FragmentAt(f, size, tag, cuts', i) && |frags'[i]| <= avail {
      if i < n {
        assert frags'[i] == frags[i];
        assert FragmentAt(f, size, tag, cuts', i) == FragmentAt(f, size, tag, cuts, i);
      }
    }
  }

  lemma FirstLength(size: nat, tag: nat, data: seq<byte>)
    ensures |FirstFragment(size, tag, data)| == FRAG1_SIZE + |data|
  {}

  /** The pieces, put one after the other. */
  function Joined<T>(f: seq<T>, cuts: seq<nat>, n: nat): seq<T>
    requires n < |cuts|
  {
    if n == 0 then [] else Joined(f, cuts, n - 1) + Chunk(f, cuts, n - 1)
  }

  /** The chunks of all fragments are the whole frame, each byte once. */
  lemma {:induction false} ChunksJoin<T>(f: seq<T>, cuts: seq<nat>, n: nat)
    requires |cuts| >= 1 && cuts[0] == 0 && cuts[|cuts| - 1] == |f| && Increasing(cuts) && n < |cuts|
    ensures cuts[n] <= |f| && Joined(f, cuts, n) == f[..cuts[n]]
  {
    if n < |cuts| - 1 { Ordered(cuts, n, |cuts| - 1); }
    if n > 0 {
      ChunksJoin(f, cuts, n - 1);
      assert cuts[n - 1] < cuts[n - 1 + 1];
    }
  }

  /** What the fragments carry, put one after the other. */
  function Payloads(frags: seq<seq<byte>>): seq<byte>
    requires forall i :: 0 <= i < |frags| ==> |frags[i]| >= FRAGN_SIZE
  {
    if frags == [] then []
    else
      var n := |frags| - 1;
      Payloads(frags[..n]) + frags[n][if n == 0 then FRAG1_SIZE else FRAGN_SIZE..]
  }

  lemma PayloadOf(f: seq<byte>, size: nat, tag: nat, cuts: seq<nat>, i: nat)
    requires |f| <= size && i + 1 < |cuts| && |Chunk(f, cuts, i)| > 0
    ensures var frag := FragmentAt(f, size, tag, cuts, i);
      |frag| >= FRAGN_SIZE && frag[if i == 0 then FRAG1_SIZE else FRAGN_SIZE..] == Chunk(f, cuts, i)
  {
    hide Chunk, Head, High, Low, Bits8;
  }

  lemma ChunkLength<T>(f: seq<T>, cuts: seq<nat>, i: nat)
    requires Increasing(cuts) && i + 1 < |cuts| && cuts[|cuts| - 1] <= |f|
    ensures |Chunk(f, cuts, i)| == cuts[i + 1] - cuts[i] > 0
  {
    if i + 1 < |cuts| - 1 { Ordered(cuts, i + 1, |cuts| - 1); }
  }

  /** They carry the whole frame, each byte once. */
  lemma {:induction false} PayloadsJoin(f: seq<byte>, size: nat, tag: nat, cuts: seq<nat>, frags: seq<seq<byte>>)
    requires |f| <= size && |cuts| >= 1 && cuts[0] == 0 && Increasing(cuts) && cuts[|cuts| - 1] <= |f| && |frags| < |cuts|
    requires forall i :: 0 <= i < |frags| ==> frags[i] == FragmentAt(f, size, tag, cuts, i)
    ensures forall i :: 0 <= i < |frags| ==> |frags[i]| >= FRAGN_SIZE
    ensures Payloads(frags) == Joined(f, cuts, |frags|)
    decreases |frags|
  {
    hide FragmentAt, Chunk, Increasing;
    forall i | 0 <= i < |frags| ensures |frags[i]| >= FRAGN_SIZE {
      ChunkLength(f, cuts, i);
      PayloadOf(f, size, tag, cuts, i);
    }
    if |frags| > 0 {
      var n := |frags| - 1;
      PayloadsJoin(f, size, tag, cuts, frags[..n]);
      ChunkLength(f, cuts, n);
      PayloadOf(f, size, tag, cuts, n);
    }
  }

  /** The further fragments, until the cookie is done. */
  method SendOthers(f: seq<byte>, size: nat, tag: nat, avail: nat, off: nat, copy: nat, first: seq<byte>)
    returns (frags: seq<seq<byte>>, ghost cuts: seq<nat>)
    requires 13 <= avail < |f| <= size < 2048 && tag < 65536 && 0 < copy < |f| && 8 * off == copy + (size - |f|)
    requires Sent(f, size, tag, avail, [first], [0, copy])
    ensures Sent(f, size, tag, avail, frags, cuts) && |cuts| >= 3 && cuts[1] == copy && cuts[|cuts| - 1] == |f|
  {
    hide FirstFragment, NextFragment, Sent, Step;
    frags, cuts := [first], [0, copy];
    ProgressFrom13(avail);
    StepFits(avail);
    var cookie := new Cookie(f, size, tag, off, copy);
    var done := false;
    while !done
      invariant fresh(cookie) && cookie.f == f && cookie.size == size && cookie.tag == tag
      invariant Sent(f, size, tag, avail, frags, cuts)
      invariant |cuts| >= 2 && cuts[1] == copy && cuts[|cuts| - 1] == cookie.copied <= |f|
      invariant if done then cookie.copied == |f| && |cuts| >= 3 else cookie.Valid()
      decreases |f| - cookie.copied
    {
      ghost var units := cookie.off;
      var frag;
      frag, done := cookie.Next(avail);
      SentMore(f, size, tag, avail, frags, cuts, units, cookie.copied);
      frags, cuts := frags + [frag], cuts + [cookie.copied];
    }
  }

  /** Sends a compressed frame that does not fit the link: the first fragment, then the others. */
  method SendFragments(f: seq<byte>, size: nat, tag: nat, avail: nat, hlen: nat)
    returns (frags: seq<seq<byte>>, ghost cuts: seq<nat>)
    requires 13 <= avail < |f| <= size < 2048 && tag < 65536 && 0 < hlen <= avail
    requires HeaderFits(avail, size - |f|, hlen)
    ensures Cuts(cuts, |f|, size - |f|) && |frags| == |cuts| - 1 && hlen <= cuts[1] == 8 * FirstUnits(avail, size - |f|) - (size - |f|)
    ensures forall i :: 0 <= i < |frags| ==> frags[i] == FragmentAt(f, size, tag, cuts, i)
    ensures (forall i :: 0 <= i < |frags| ==> FRAGN_SIZE <= |frags[i]| <= avail) && Payloads(frags) == f
  {
    hide FirstFragment, NextFragment, Sent, Cuts, FragmentAt, Payloads, FirstUnits, HeaderFits;
    var off, copy := FirstCut(|f|, size, avail, hlen);
    SentOne(f, size, tag, avail, copy);
    frags, cuts := SendOthers(f, size, tag, avail, off, copy, FirstFragment(size, tag, f[..copy]));
    SentAll(f, size, tag, avail, frags, cuts);
  }

  lemma StepFits(avail: nat)
    requires avail >= FRAGN_SIZE
    ensures Step(avail) <= avail - FRAGN_SIZE
  {}

  lemma SentAll(f: seq<byte>, size: nat, tag: nat, avail: nat, frags: seq<seq<byte>>, cuts: seq<nat>)
    requires Sent(f, size, tag, avail, frags, cuts) && |cuts| >= 3 && cuts[|cuts| - 1] == |f|
    ensures Cuts(cuts, |f|, size - |f|) && |frags| == |cuts| - 1
    ensures forall i :: 0 <= i < |frags| ==> frags[i] == FragmentAt(f, size, tag, cuts, i)
    ensures (forall i :: 0 <= i < |frags| ==> FRAGN_SIZE <= |frags[i]| <= avail) && Payloads(frags) == f
  {
    hide FragmentAt, Payloads, Joined;
    PayloadsJoin(f, size, tag, cuts, frags);
    ChunksJoin(f, cuts, |frags|);
    assert f[..cuts[|frags|]] == f;
  }
}
