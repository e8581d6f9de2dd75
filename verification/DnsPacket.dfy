/**
 Compression of a whole DNS packet in its buffer: each name after the first is compressed in turn and
 everything behind it moves up.
 */
module DnsPacket {
  import opened Bytes
  import opened Sequences
  import opened DnsWire

  const QUESTION_SUFFIX := 4
  const RECORD_SUFFIX := 10

  /** The entries of a packet: a name, and what follows it up to the next entry, that is a question
      suffix or a record suffix with its record data. */
  type Texts = seq<seq<octet>>

  /** Entries from number `k` on, as they are written without compression. */
  function Flat(names: Texts, tails: Texts, k: nat): seq<octet>
    requires |names| == |tails| && k <= |names|
    decreases |names| - k
  {
    if k == |names| then [] else names[k] + (tails[k] + Flat(names, tails, k + 1))
  }

  /** Where the first `n` entries end. */
  function EndOf(p: seq<octet>, tails: Texts, n: nat): nat
    requires n <= |tails|
  {
    if n == 0 then HEADER else NameEnd(p, EndOf(p, tails, n - 1)) + |tails[n - 1]|
  }

  /** The entry at `pos` means `name` and is followed by `tail`. */
  ghost predicate EntryAt(p: seq<octet>, pos: nat, name: seq<octet>, tail: seq<octet>) {
    var e := NameEnd(p, pos);
    pos < e && e + |tail| <= |p| && Reads(p, pos, e, name) && p[e..e + |tail|] == tail
  }

  /** The first `n` entries of the packet are the given ones. */
  ghost predicate Means(p: seq<octet>, names: Texts, tails: Texts, n: nat)
    requires |names| == |tails| && n <= |names|
  {
    n == 0 || (Means(p, names, tails, n - 1) && EntryAt(p, EndOf(p, tails, n - 1), names[n - 1], tails[n - 1]))
  }

  /** Each entry stands where the entries before it end. */
  lemma {:induction false} MeansEntry(p: seq<octet>, names: Texts, tails: Texts, n: nat, k: nat)
    requires |names| == |tails| && k < n <= |names| && Means(p, names, tails, n)
    ensures EntryAt(p, EndOf(p, tails, k), names[k], tails[k])
  {
    hide EntryAt;
    if k < n - 1 { MeansEntry(p, names, tails, n - 1, k); }
  }

  // ----- What comes before stays -----

  lemma {:induction false} EndFrame(p: seq<octet>, q: seq<octet>, pos: nat, lim: nat)
    requires NameEnd(p, pos) <= lim <= |p| && lim <= |q| && p[..lim] == q[..lim]
    ensures pos < NameEnd(p, pos) == NameEnd(q, pos)
    decreases |p| - pos
  {
    EndAfter(p, pos);
    SameAt(p, q, lim, pos);
    if 0 < p[pos] < 64 { EndFrame(p, q, pos + 1 + p[pos], lim); }
  }

  lemma {:induction false} EndAfter(p: seq<octet>, pos: nat)
    ensures pos < NameEnd(p, pos)
    decreases |p| - pos
  {
    if pos < |p| && 0 < p[pos] < 64 { EndAfter(p, pos + 1 + p[pos]); }
  }

  lemma EntryFrame(p: seq<octet>, q: seq<octet>, pos: nat, name: seq<octet>, tail: seq<octet>, lim: nat)
    requires EntryAt(p, pos, name, tail) && NameEnd(p, pos) + |tail| <= lim <= |p| && lim <= |q| && p[..lim] == q[..lim]
    ensures EntryAt(q, pos, name, tail) && NameEnd(q, pos) == NameEnd(p, pos)
  {
    var e := NameEnd(p, pos);
    EndFrame(p, q, pos, lim);
    SameSlice(p, q, lim, 0, e);
    ReadsFrame(p, q, pos, e, name);
    SameSlice(p, q, lim, e, e + |tail|);
    hide Reads, NameEnd;
  }

  lemma {:induction false} MeansFrame(p: seq<octet>, q: seq<octet>, names: Texts, tails: Texts, n: nat, lim: nat)
    requires |names| == |tails| && n <= |names| && Means(p, names, tails, n)
    requires EndOf(p, tails, n) <= lim <= |p| && lim <= |q| && p[..lim] == q[..lim]
    ensures Means(q, names, tails, n) && EndOf(q, tails, n) == EndOf(p, tails, n)
  {
    hide EntryAt, NameEnd, Reads;
    if n > 0 {
      EndAfter(p, EndOf(p, tails, n - 1));
      MeansFrame(p, q, names, tails, n - 1, lim);
      EntryFrame(p, q, EndOf(p, tails, n - 1), names[n - 1], tails[n - 1], lim);
    }
  }

  // ----- One entry after the other -----

  /** Entries before `k` have been dealt with, those from `k` on are still written out. */
  ghost predicate Inv(p: seq<octet>, names: Texts, tails: Texts, k: nat)
    requires |names| == |tails| && k <= |names|
  {
    && |p| <= 16384 && Means(p, names, tails, k) && HEADER <= EndOf(p, tails, k) <= |p|
    && p[EndOf(p, tails, k)..] == Flat(names, tails, k)
  }

  lemma NextWritten(p: seq<octet>, pos: nat, name: seq<octet>, tail: seq<octet>, rest: seq<octet>)
    requires pos <= |p| && p[pos..] == name + (tail + rest)
    ensures Written(p, pos, name) && p[pos + |name|..] == tail + rest
  {
    assert p[pos..][..|name|] == name;
    assert p[pos..][|name|..] == tail + rest;
  }

  lemma NextTail(q: seq<octet>, e: nat, tail: seq<octet>, rest: seq<octet>)
    requires e <= |q| && q[e..] == tail + rest
    ensures e + |tail| <= |q| && q[e..e + |tail|] == tail && q[e + |tail|..] == rest
  {
    assert q[e..][..|tail|] == tail;
    assert q[e..][|tail|..] == rest;
  }

  lemma NameParts(name: seq<octet>)
    requires IsName(name)
    ensures |name| > 0
    ensures name[0] == 0 ==> |name| == 1
    ensures name[0] != 0 ==> name[0] < 64 && name[0] + 1 < |name| && IsName(name[name[0] + 1..])
  {}

  lemma EndStep(p: seq<octet>, pos: nat)
    requires pos < |p|
    ensures NameEnd(p, pos) == if p[pos] == 0 then pos + 1 else if p[pos] >= 64 then pos + 2 else NameEnd(p, pos + 1 + p[pos])
  {}

  lemma {:induction false} WrittenEnd(p: seq<octet>, pos: nat, name: seq<octet>)
    requires IsName(name) && Written(p, pos, name)
    ensures NameEnd(p, pos) == pos + |name|
    decreases |name|
  {
    hide Written, IsName, NameEnd;
    NameParts(name);
    WrittenBounds(p, pos, name);
    WrittenFrom(p, pos, name, 0);
    EndStep(p, pos);
    if name[0] != 0 {
      WrittenFrom(p, pos, name, name[0] + 1);
      WrittenEnd(p, pos + name[0] + 1, name[name[0] + 1..]);
    }
  }

  /** The packet once entry `k` has been dealt with.  The first name of a packet is left as it is. */
  ghost function Step(p: seq<octet>, names: Texts, tails: Texts, k: nat): seq<octet>
    requires |names| == |tails| && k < |names|
    requires k > 0 ==> CanStep(p, names[k], EndOf(p, tails, k))
  {
    if k == 0 then p else Compressed(p, EndOf(p, tails, k), names[k])
  }

  ghost predicate CanStep(p: seq<octet>, name: seq<octet>, pos: nat) {
    IsName(name) && pos + |name| <= |p| <= 16384 && Shared(p, pos, name)
  }

  lemma EntryKept(p: seq<octet>, q: seq<octet>, names: Texts, tails: Texts, k: nat)
    requires |names| == |tails| && k < |names| && Inv(p, names, tails, k) && |q| <= |p|
    requires var pos := EndOf(p, tails, k); var e := NameEnd(q, pos);
      && pos < e <= |q| && q[..pos] == p[..pos] && pos + |names[k]| <= |p| && q[e..] == p[pos + |names[k]|..] && Reads(q, pos, e, names[k])
    ensures Inv(q, names, tails, k + 1) && q[..HEADER] == p[..HEADER] && EndOf(q, tails, k) == EndOf(p, tails, k)
  {
    hide NameEnd, Reads, EntryAt;
    var pos := EndOf(p, tails, k);
    var e := NameEnd(q, pos);
    MeansFrame(p, q, names, tails, k, pos);
    assert Flat(names, tails, k) == names[k] + (tails[k] + Flat(names, tails, k + 1));
    hide Flat;
    NextWritten(p, pos, names[k], tails[k], Flat(names, tails, k + 1));
    NextTail(q, e, tails[k], Flat(names, tails, k + 1));
    EntryIntro(q, pos, names[k], tails[k]);
    SameSlice(p, q, pos, 0, HEADER);
  }

  lemma EntryIntro(q: seq<octet>, pos: nat, name: seq<octet>, tail: seq<octet>)
    requires var e := NameEnd(q, pos); pos < e && e + |tail| <= |q| && Reads(q, pos, e, name) && q[e..e + |tail|] == tail
    ensures EntryAt(q, pos, name, tail)
  {}

  lemma StepKeeps(p: seq<octet>, names: Texts, tails: Texts, k: nat)
    requires |names| == |tails| && k < |names| && Inv(p, names, tails, k) && IsName(names[k])
    requires k > 0 ==> CanStep(p, names[k], EndOf(p, tails, k))
    ensures var q := Step(p, names, tails, k);
      Inv(q, names, tails, k + 1) && q[..HEADER] == p[..HEADER] && |q| <= |p| && EndOf(q, tails, k) == EndOf(p, tails, k)
  {
    var pos := EndOf(p, tails, k);
    NextWritten(p, pos, names[k], tails[k], Flat(names, tails, k + 1));
    hide Reads, NameEnd, Means, Flat, Written, EndOf;
    if k == 0 {
      WrittenEnd(p, pos, names[k]);
      WrittenBounds(p, pos, names[k]);
      WrittenReads(p, pos, pos + |names[k]|, names[k]);
      EntryKept(p, p, names, tails, k);
    } else {
      CompressedMeans(p, pos, names[k]);
      ShortenedBounds(p, Compressed(p, pos, names[k]), pos, names[k]);
      hide Shared, Compressed, IsName;
      EntryKept(p, Compressed(p, pos, names[k]), names, tails, k);
    }
  }

  lemma WrittenBounds(p: seq<octet>, pos: nat, name: seq<octet>)
    requires Written(p, pos, name) && IsName(name)
    ensures |name| > 0 && pos + |name| <= |p|
  {}

  lemma ShortenedBounds(p: seq<octet>, q: seq<octet>, pos: nat, name: seq<octet>)
    requires Shortened(p, q, pos, name)
    ensures |q| < |p| && |p| - |q| == pos + |name| - NameEnd(q, pos)
  {
    var e := NameEnd(q, pos);
    assert |q[e..]| == |p[pos + |name|..]|;
    hide Reads, NameEnd;
  }

  // ----- The whole packet -----

  /** When its turn comes, every name but the first has a suffix, other than the root, that occurs
      earlier in the packet. */
  ghost predicate AllShared(p: seq<octet>, names: Texts, tails: Texts, k: nat)
    requires |names| == |tails| && k <= |names|
    decreases |names| - k
  {
    k < |names| ==>
      (k > 0 ==> CanStep(p, names[k], EndOf(p, tails, k))) && AllShared(Step(p, names, tails, k), names, tails, k + 1)
  }

  ghost function Packed(p: seq<octet>, names: Texts, tails: Texts, k: nat): seq<octet>
    requires |names| == |tails| && k <= |names| && AllShared(p, names, tails, k)
    decreases |names| - k
  {
    if k == |names| then p else Packed(Step(p, names, tails, k), names, tails, k + 1)
  }

  ghost predicate AllNames(names: Texts) {
    forall i :: 0 <= i < |names| ==> IsName(names[i])
  }

  /** MAIN RESULT.  The compressed packet has the same header and holds the same entries, with the same
      names and the same bytes between them, and nothing else. */
  lemma {:induction false} PackedMeans(p: seq<octet>, names: Texts, tails: Texts, k: nat)
    requires |names| == |tails| && k <= |names| && AllNames(names) && AllShared(p, names, tails, k) && Inv(p, names, tails, k)
    ensures var q := Packed(p, names, tails, k);
      && |q| <= |p| && HEADER <= |q| && q[..HEADER] == p[..HEADER]
      && Means(q, names, tails, |names|) && EndOf(q, tails, |names|) == |q|
    decreases |names| - k
  {
    if k == |names| {
      assert p[EndOf(p, tails, k)..] == [];
      hide Means, EndOf;
    } else {
      StepKeeps(p, names, tails, k);
      hide Inv, Means, EndOf, Step, CanStep;
      PackedMeans(Step(p, names, tails, k), names, tails, k + 1);
    }
  }
}
