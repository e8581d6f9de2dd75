/** A routing header never comes back from 6LoWPAN compression, whatever follows it. */
module LowpanRouting {
  import opened Bytes
  import opened LowpanIphc
  import opened LowpanFrame
  import opened LowpanExtension

  /** Its type is taken for its length, for the elided next header is not noticed. */
  lemma RoutingSeen(e: Ext, nh: bv8, c: seq<byte>)
    requires IsExt(e) && e.kind.Routing? && Compressible(nh)
    ensures var s := Squeezed(e, nh) + c;
      |s| > 2 && LooksExtension(s[0].bits) && Sees(s) && Believed(s) == 2 + Num(s[2].bits) && Takes(s) == Believed(s) + 1 && From(s) == 3
  {
    SqueezedParts(e, nh, c);
    DispatchFacts(e.kind, true);
    hide Compressible, ExtDispatch, LooksExtension, IsFragment, Inline, Squeezed, Num, Bits8;
  }

  lemma ExpandedAt(s: seq<byte>, next: bv8, k: nat)
    requires Readable(s) && 2 <= k < RoundedUp(Believed(s))
    ensures k < Believed(s) ==> Expanded(s, next)[k] == s[From(s) + k - 2]
    ensures k >= Believed(s) ==> Expanded(s, next)[k] == Pad(RoundedUp(Believed(s)) - Believed(s))[k - Believed(s)]
  {
    hide Believed, From, Retrieve, Octet, RoundedUp, Takes, Pad;
  }

  lemma PaddedLength(v: nat, n: nat)
    requires 2 + v < n < 10 + v && n % 8 == 0 && v == if n == 3 + v then 0 else 1
    ensures v == 1 && n == 8
  {}

  lemma EightFold(e: Ext)
    requires IsExt(e)
    ensures |e.rest| >= 7 && (|e.rest| + 1) % 8 == 0
  {
    hide Num;
  }

  lemma PadFacts(p: nat)
    requires 0 < p < 8
    ensures p == 1 ==> Num(Pad(p)[0].bits) == 0
    ensures p > 1 ==> Num(Pad(p)[0].bits) == 1 && Num(Pad(p)[1].bits) == p - 2
  {
    if p > 1 { Value8(p - 2); }
    hide Bits8;
  }

  /** A header `w`, of which all bytes but the first two stand where they stood, comes back from `s` although
      its third byte is taken for its length. */
  predicate Comes(s: seq<byte>, next: bv8, w: seq<byte>) {
    && Readable(s) && Expanded(s, next) == w && |w| <= |s| && |w| % 8 == 0 && |s| > 2
    && From(s) == 3 && Believed(s) == 2 + Num(s[2].bits) && Takes(s) == Believed(s) + 1
    && forall k :: 2 <= k < |w| ==> s[k] == w[k]
  }

  lemma ComesFacts(s: seq<byte>, next: bv8, w: seq<byte>)
    requires Comes(s, next, w)
    ensures Readable(s) && Sees(s) && |s| > 2 && Expanded(s, next) == w && |w| % 8 == 0
    ensures 2 <= Believed(s) <= |w| == RoundedUp(Believed(s)) < Believed(s) + 8
    ensures Believed(s) == 2 + Num(s[2].bits) && Takes(s) == Believed(s) + 1 <= |s| && From(s) == 3
  {
    hide Believed, Takes, From, Num, Bits8, Retrieve, Octet, Pad;
    RoundedUpFacts(Believed(s));
    ReadableFacts(s);
  }

  lemma ComesAt(s: seq<byte>, next: bv8, w: seq<byte>, k: nat)
    requires Comes(s, next, w) && 2 <= k < |w|
    ensures Sees(s) && Believed(s) <= |w| && k < |s| && s[k] == w[k]
    ensures k < Believed(s) ==> k + 1 < |s| && s[k + 1] == s[k]
    ensures k >= Believed(s) ==> s[k] == Pad(|w| - Believed(s))[k - Believed(s)]
  {
    assert s[k] == w[k];
    hide *;
    ComesFacts(s, next, w);
    ExpandedAt(s, next, k);
  }

  /** Then its bytes repeat that length. */
  lemma {:induction false} Repeats(s: seq<byte>, next: bv8, w: seq<byte>, k: nat)
    requires Comes(s, next, w) && 2 <= k
    ensures Sees(s) && |s| > 2 && (k <= Believed(s) ==> k < |s| && s[k] == s[2])
  {
    hide *;
    ComesFacts(s, next, w);
    if 2 < k <= Believed(s) {
      Repeats(s, next, w, k - 1);
      ComesAt(s, next, w, k - 1);
    }
  }

  /** Padding would have to repeat it too, so there is none unless the header has eight bytes. */
  lemma Padded(s: seq<byte>, next: bv8, w: seq<byte>)
    requires Comes(s, next, w)
    ensures Sees(s) && (Believed(s) < |w| ==> Believed(s) == 3 && |w| == 8)
  {
    hide *;
    ComesFacts(s, next, w);
    var len, n := Believed(s), |w|;
    if len < n {
      PadFacts(n - len);
      Repeats(s, next, w, len);
      ComesAt(s, next, w, len);
      PaddedLength(Num(s[2].bits), n);
    }
  }

  lemma ComesCases(s: seq<byte>, next: bv8, w: seq<byte>)
    requires Comes(s, next, w)
    ensures Sees(s) && |s| > 2
    ensures
      || (|w| == 8 && |s| > 4 && Takes(s) == 4 && Num(s[4].bits) == 3)
      || (|s| > |w| && Takes(s) == |w| + 1 && s[|w|] == s[2] && Num(s[2].bits) == |w| - 2)
  {
    hide *;
    ComesFacts(s, next, w);
    Padded(s, next, w);
    if Believed(s) < |w| {
      ComesAt(s, next, w, 4);
      PadFacts(5);
    } else {
      Repeats(s, next, w, |w|);
    }
  }

  /** A routing header with an elided next header is such a header. */
  lemma RoutingComes(e: Ext, nh: bv8, c: seq<byte>, next: bv8)
    requires IsExt(e) && e.kind.Routing? && Compressible(nh) && Readable(Squeezed(e, nh) + c)
    requires Expanded(Squeezed(e, nh) + c, next) == Whole(e, nh)
    ensures Comes(Squeezed(e, nh) + c, next, Whole(e, nh))
  {
    var s, w := Squeezed(e, nh) + c, Whole(e, nh);
    SqueezedParts(e, nh, c);
    RoutingSeen(e, nh, c);
    EightFold(e);
    WholeLength(e, nh);
    hide Squeezed, Compressible, Believed, Takes, From, Num, Bits8, Retrieve, Octet, Pad, Expanded, Readable, Whole;
    forall k | 2 <= k < |w| ensures s[k] == w[k] { WholeAt(e, nh, k); }
  }

  /** Equal length bytes, equal lengths. */
  lemma LengthByte(s: seq<byte>, next: bv8, e: Ext)
    requires Readable(s) && IsExt(e) && !e.kind.Fragment? && Expanded(s, next)[1] == e.rest[0]
    ensures |Expanded(s, next)| == |e.rest| + 1
  {
    hide Expanded, Num, Bits8, Retrieve, Pad, IsFragment, Inline;
    ExpandedParts(s, next);
    BelievedBound(s);
    RoundedUpFacts(Believed(s));
    Value8(RoundedUp(Believed(s)) / 8 - 1);
    hide Believed, RoundedUp;
  }

  lemma BelievedBound(s: seq<byte>)
    requires Sees(s)
    ensures 2 <= Believed(s) <= 257
  {}

  /** What `Restore` would have had to find behind a routing header. */
  lemma RoutingWould(e: Ext, nh: bv8, c: seq<byte>, mem: byte, i: nat, o: seq<byte>)
    requires IsExt(e) && e.kind.Routing? && Compressible(nh) && i < 8
    requires Restore(Squeezed(e, nh) + c, mem, i) == Some(Whole(e, nh) + o)
    ensures var s := Squeezed(e, nh) + c;
      && Readable(s) && Takes(s) <= |s| && Restore(s[Takes(s)..], mem, i + 1) == Some(o)
      && Retrieve(FirstOf(s[Takes(s)..], mem).bits) == nh && Comes(s, FirstOf(s[Takes(s)..], mem).bits, Whole(e, nh))
  {
    var s := Squeezed(e, nh) + c;
    hide *;
    RoutingSeen(e, nh, c);
    RestoreStep(s, mem, i);
    ReadableFacts(s);
    var rest := s[Takes(s)..];
    var next := FirstOf(rest, mem).bits;
    var x, r := Expanded(s, next), Restore(rest, mem, i + 1);
    ExtLength(e);
    WholeLength(e, nh);
    WholeAt(e, nh, 1);
    WholeIs(e, nh);
    SecondOf(x, Whole(e, nh), r.value, o);
    LengthByte(s, next, e);
    Cancel(x, Whole(e, nh), r.value, o);
    ExpandedParts(s, next);
    RoutingComes(e, nh, c, next);
  }

  lemma Three(v: bv8)
    requires Num(v) == 3
    ensures v == 3
  {
    NumBack(v);
    assert Bits8(3) == 3;
  }

  /** A header of eight bytes with three bytes of it believed: what is left of it is in the way. */
  lemma ShortRoutingLost(c: seq<byte>, s: seq<byte>, es: Exts, t: Tail, mem: byte, i: nat)
    requires IsChain(es, t) && NextOf(es, t) == 0 && c == Chain(es, t) && |s| == 4 + |c| && Num(s[0].bits) == 3
    ensures Restore(s, mem, i) != Some(Original(es, Relengthened(t)))
  {
    var o := Original(es, Relengthened(t));
    if Restore(s, mem, i) == Some(o) {
      RestoreRoom(s, mem, i);
      Three(s[0].bits);
      PlainRestored(s, mem, i);
      assert s == o && es != [];
      var nh := NextOf(es[1..], t);
      hide *;
      RelengthenedFacts(es, t);
      RelengthenedFacts(es[1..], t);
      ChainIs(es, t);
      ChainIs(es, Relengthened(t));
      WholeLength(es[0], nh);
      WholeFirst(es[0], nh);
      NotCompressible3();
      EndsPlain(es[1..], t);
      SqueezedFirst(es[0], nh);
      assert false;
    }
  }

  lemma RetrieveThree()
    ensures Retrieve(3) == 0
  {}

  lemma NotCompressible3()
    ensures !Compressible(3)
  {}

  /** One that fills its believed length exactly takes a byte of the next header with it. */
  lemma FullRoutingLost(es: Exts, t: Tail, mem: byte, i: nat)
    requires IsChain(es, t) && es != [] && !Compressible(NextOf(es[1..], t)) && |Chain(es, t)| > 1
    requires LooksExtension(FirstOf(Chain(es, t)[1..], mem).bits)
    ensures Restore(Chain(es, t)[1..], mem, i) != Some(Original(es, Relengthened(t)))
  {
    var c, nh := Chain(es, t), NextOf(es[1..], t);
    NamesCompressible(c[1..], mem, i);
    hide *;
    RelengthenedFacts(es, t);
    RelengthenedFacts(es[1..], t);
    ChainIs(es, t);
    ChainIs(es, Relengthened(t));
    WholeLength(es[0], nh);
    WholeFirst(es[0], nh);
  }

  lemma SixtyLooks(b: bv8)
    requires Retrieve(b) == Number(DestOptions)
    ensures LooksExtension(b)
  {}

  lemma SixModEight(n: nat)
    requires n >= 2 && n % 8 == 0
    ensures (n - 2) % 8 == 6
  {}

  lemma DropBoth<T>(a: seq<T>, c: seq<T>, k: nat)
    requires |c| > 0
    ensures (a + c)[|a| + 1..] == c[1..] && (a + c)[|a|] == c[0]
    ensures k <= |a| ==> |(a + c)[k..]| == |a| + |c| - k
  {}

  lemma LostIfShort(a: seq<byte>, es: Exts, t: Tail, mem: byte, i: nat)
    requires |a| == 8 && IsChain(es, t) && Num((a + Chain(es, t))[4].bits) == 3
    requires Retrieve(FirstOf((a + Chain(es, t))[4..], mem).bits) == NextOf(es, t)
    ensures Restore((a + Chain(es, t))[4..], mem, i) != Some(Original(es, Relengthened(t)))
  {
    var c := Chain(es, t);
    var rest := (a + c)[4..];
    assert rest[0] == (a + c)[4] == FirstOf(rest, mem);
    hide *;
    Three(rest[0].bits);
    RetrieveThree();
    ShortRoutingLost(c, rest, es, t, mem, i);
  }

  lemma LostIfFull(a: seq<byte>, es: Exts, t: Tail, mem: byte, i: nat)
    requires |a| % 8 == 0 && |a| >= 8 && IsChain(es, t) && Compressible(NextOf(es, t)) && |Chain(es, t)| > 0
    requires Num((a + Chain(es, t))[|a|].bits) == |a| - 2
    requires Retrieve(FirstOf((a + Chain(es, t))[|a| + 1..], mem).bits) == NextOf(es, t)
    ensures Restore((a + Chain(es, t))[|a| + 1..], mem, i) != Some(Original(es, Relengthened(t)))
  {
    hide *;
    var c := Chain(es, t);
    DropBoth(a, c, 0);
    ChainStart(es, t);
    SixModEight(|a|);
    ChainIs(es, t);
    SixtyLooks(FirstOf(c[1..], mem).bits);
    LongerThanOne(es, t);
    FullRoutingLost(es, t, mem, i);
  }

  lemma LongerThanOne(es: Exts, t: Tail)
    requires IsChain(es, t) && es != []
    ensures |Chain(es, t)| > 1
  {
    ChainIs(es, t);
    SqueezedFirst(es[0], NextOf(es[1..], t));
    hide Chain, Squeezed;
  }

  lemma RoutingWouldCases(e: Ext, nh: bv8, c: seq<byte>, mem: byte, i: nat, o: seq<byte>)
    requires IsExt(e) && e.kind.Routing? && Compressible(nh) && i < 8
    requires Restore(Squeezed(e, nh) + c, mem, i) == Some(Whole(e, nh) + o)
    ensures var a := Squeezed(e, nh);
      || (|a| == 8 && Num((a + c)[4].bits) == 3 && Retrieve(FirstOf((a + c)[4..], mem).bits) == nh && Restore((a + c)[4..], mem, i + 1) == Some(o))
      || (|a| % 8 == 0 && |a| >= 8 && |c| > 0 && Num((a + c)[|a|].bits) == |a| - 2
          && Retrieve(FirstOf((a + c)[|a| + 1..], mem).bits) == nh && Restore((a + c)[|a| + 1..], mem, i + 1) == Some(o))
  {
    hide *;
    RoutingWould(e, nh, c, mem, i, o);
    SqueezedFirst(e, nh);
    WholeLength(e, nh);
    ExtLength(e);
    var s := Squeezed(e, nh) + c;
    ReadableFacts(s);
    var next := FirstOf(s[Takes(s)..], mem).bits;
    ComesFacts(s, next, Whole(e, nh));
    ComesCases(s, next, Whole(e, nh));
  }

  /** No routing header comes back. */
  lemma RoutingLost(e: Ext, es: Exts, t: Tail, mem: byte, i: nat)
    requires IsExt(e) && e.kind.Routing? && IsChain(es, t) && Compressible(NextOf(es, t)) && i < 8
    ensures var nh := NextOf(es, t);
      Restore(Squeezed(e, nh) + Chain(es, t), mem, i) != Some(Whole(e, nh) + Original(es, Relengthened(t)))
  {
    var nh, c, o := NextOf(es, t), Chain(es, t), Original(es, Relengthened(t));
    var a, w := Squeezed(e, nh), Whole(e, nh);
    hide *;
    if Restore(a + c, mem, i) == Some(w + o) {
      RoutingWouldCases(e, nh, c, mem, i, o);
      var s: seq<byte> := a + c;
      if |a| == 8 && Num(s[4].bits) == 3 && Restore(s[4..], mem, i + 1) == Some(o) && Retrieve(FirstOf(s[4..], mem).bits) == nh {
        LostIfShort(a, es, t, mem, i + 1);
      } else {
        LostIfFull(a, es, t, mem, i + 1);
      }
      assert false;
    }
  }
}
